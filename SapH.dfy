/**
 * SAP CODVN H (PWDSALTEDHASH) records, `{x-is<tag>, <count>}<base64>`, whose
 * payload decodes to the digest followed by 1 to 16 salt bytes: record
 * validation and parsing, the iterated salted digest chain, and the
 * per-candidate state and comparators of the format.
 */
module SapH {
  import opened Wrappers
  import opened Bytes
  import opened Sha
  import Decimal
  import Base64

  const SALT_LENGTH: nat := 16
  /** Every digest is cut down to its first 16 bytes for comparison. */
  const BINARY_SIZE: nat := 16

  /** "{x-is" */
  const SIGNATURE: seq<byte> := ['{' as byte, 'x' as byte, '-' as byte, 'i' as byte, 's' as byte]

  /**
   * The tag after the signature, with its comma and space. SHA-1's tag is
   * lower case and has no "1"; the others are upper case.
   */
  function Tag(h: HashType): (w: seq<byte>)
    ensures |w| >= 5 && w[|w| - 1] == SPACE && SPACE !in w[..|w| - 1] && RBRACE !in w
  {
    match h
    case Sha1 => ['s' as byte, 'h' as byte, 'a' as byte, ',' as byte, ' ' as byte]
    case Sha256 => ['S' as byte, 'H' as byte, 'A' as byte, '2' as byte, '5' as byte, '6' as byte, ',' as byte, ' ' as byte]
    case Sha384 => ['S' as byte, 'H' as byte, 'A' as byte, '3' as byte, '8' as byte, '4' as byte, ',' as byte, ' ' as byte]
    case Sha512 => ['S' as byte, 'H' as byte, 'A' as byte, '5' as byte, '1' as byte, '2' as byte, ',' as byte, ' ' as byte]
  }

  /** The salt structure's `type`: 1, 2, 3 or 4 for SHA-1, SHA-256, SHA-384, SHA-512. */
  function TypeNumber(h: HashType): (n: int)
    ensures 1 <= n <= 4
  {
    match h
    case Sha1 => 1
    case Sha256 => 2
    case Sha384 => 3
    case Sha512 => 4
  }

  /** The digest crypt_all's switch selects for a `type`; none for any other value. */
  function TypeOf(typ: int): (r: Option<HashType>)
    ensures r.Some? <==> 1 <= typ <= 4
    ensures r.Some? ==> TypeNumber(r.value) == typ
  {
    if typ == 1 then Some(Sha1)
    else if typ == 2 then Some(Sha256)
    else if typ == 3 then Some(Sha384)
    else if typ == 4 then Some(Sha512)
    else None
  }

  /** The tag at offset 5, compared case-sensitively (strncmp), in the order valid tries them. */
  function ExactTag(t: seq<byte>): (r: Option<HashType>)
    ensures r.Some? ==> HasAt(t, |SIGNATURE|, Tag(r.value))
  {
    if HasAt(t, |SIGNATURE|, Tag(Sha1)) then Some(Sha1)
    else if HasAt(t, |SIGNATURE|, Tag(Sha256)) then Some(Sha256)
    else if HasAt(t, |SIGNATURE|, Tag(Sha384)) then Some(Sha384)
    else if HasAt(t, |SIGNATURE|, Tag(Sha512)) then Some(Sha512)
    else None
  }

  /** strncasecmp(&t[k], w, |w|) == 0 */
  predicate HasAtAnyCase(t: seq<byte>, k: nat, w: seq<byte>) {
    k + |w| <= |t| && LowerAll(t[k..k + |w|]) == LowerAll(w)
  }

  /** The tag at offset 5, compared case-insensitively, as get_salt and binary do. */
  function AnyCaseTag(t: seq<byte>): (r: Option<HashType>)
    ensures r.Some? ==> HasAtAnyCase(t, |SIGNATURE|, Tag(r.value))
  {
    if HasAtAnyCase(t, |SIGNATURE|, Tag(Sha1)) then Some(Sha1)
    else if HasAtAnyCase(t, |SIGNATURE|, Tag(Sha256)) then Some(Sha256)
    else if HasAtAnyCase(t, |SIGNATURE|, Tag(Sha384)) then Some(Sha384)
    else if HasAtAnyCase(t, |SIGNATURE|, Tag(Sha512)) then Some(Sha512)
    else None
  }

  /** valid finds no tag exactly when none of the four is at offset 5, compared case-sensitively. */
  lemma ExactTagNone(t: seq<byte>)
    ensures ExactTag(t).None? <==> forall h: HashType :: !HasAt(t, |SIGNATURE|, Tag(h))
  {
  }

  /** get_salt and binary find no tag exactly when none of the four is at offset 5, even ignoring case. */
  lemma AnyCaseTagNone(t: seq<byte>)
    ensures AnyCaseTag(t).None? <==> forall h: HashType :: !HasAtAnyCase(t, |SIGNATURE|, Tag(h))
  {
  }

  /**
   * strtok with the single delimiter `d`: skips leading delimiters, and
   * gives the token up to the next delimiter (or the end) together with
   * the text after that delimiter, where the next strtok(NULL, ...)
   * resumes. None when only delimiters remain.
   */
  function Strtok(s: seq<byte>, d: byte): (r: Option<(seq<byte>, seq<byte>)>)
    ensures r.Some? ==> |r.value.0| > 0 && d !in r.value.0
  {
    var i := SkipRun(s, d);
    if i == |s| then None
    else
      var rest := s[i..];
      var j := Find(rest, d);
      Some((rest[..j], if j < |rest| then rest[j + 1..] else []))
  }

  /** The token at the head of `rest` and the text after its delimiter. */
  function Token(rest: seq<byte>, d: byte): Option<(seq<byte>, seq<byte>)> {
    var j := Find(rest, d);
    Some((rest[..j], if j < |rest| then rest[j + 1..] else []))
  }

  /** Text left after a strtok means the token was ended by a delimiter. */
  lemma StrtokEnded(s: seq<byte>, d: byte)
    ensures Strtok(s, d).Some? && Strtok(s, d).value.1 != [] ==> d in s
  {
    var i := SkipRun(s, d);
    if i < |s| {
      var j := Find(s[i..], d);
      assert j < |s[i..]| ==> s[i + j] == d;
    }
  }

  /** In a text that starts with the signature and a tag, the first space is the tag's. */
  lemma FirstSpace(t: seq<byte>, h: HashType)
    requires HasAt(t, 0, SIGNATURE) && HasAt(t, |SIGNATURE|, Tag(h))
    ensures Find(t, SPACE) == |SIGNATURE| + |Tag(h)| - 1
  {
    var w := Tag(h);
    var e := |SIGNATURE| + |w| - 1;
    assert t[e] == w[|w| - 1];
    forall j | 0 <= j < e
      ensures t[j] != SPACE
    {
      if j < |SIGNATURE| {
        assert t[j] == t[0..|SIGNATURE|][j] == SIGNATURE[j];
      } else {
        assert t[j] == t[|SIGNATURE|..|SIGNATURE| + |w|][j - |SIGNATURE|] == w[j - |SIGNATURE|];
        assert w[..|w| - 1][j - |SIGNATURE|] == w[j - |SIGNATURE|];
      }
    }
  }

  /**
   * valid: the signature, a '}' somewhere, a case-sensitive tag, then what
   * follows the tag's space passes ValidBody.
   */
  function Valid(t: seq<byte>): (ok: bool)
    ensures ok ==> HasAt(t, 0, SIGNATURE) && RBRACE in t && ExactTag(t).Some?
  {
    if !HasAt(t, 0, SIGNATURE) || RBRACE !in t then false
    else match ExactTag(t)
      case None => false
      case Some(h) =>
        FirstSpace(t, h);
        ValidBody(h, t[Find(t, SPACE) + 1..])
  }

  /**
   * The rest of valid, tokenised with strtok: an isdecu count ended by '}',
   * then a payload ended by a space or the end, entirely MIME base64, that
   * decodes to the tag's digest size plus 1 to 16 salt bytes.
   */
  function ValidBody(h: HashType, s: seq<byte>): (ok: bool)
    ensures ok ==> RBRACE in s
  {
    StrtokEnded(s, RBRACE);
    match Strtok(s, RBRACE)
    case None => false
    case Some((count, rest)) =>
      if !Decimal.IsDecU(count) then false
      else match Strtok(rest, SPACE)
        case None => false
        case Some((payload, _)) =>
          if |payload| != Base64.ValidLength(payload) then false
          else
            var len := |Base64.Decode(payload)| - DigestSize(h);
            1 <= len <= SALT_LENGTH
  }

  /** The salt structure: salt length, type 1..4, iteration count, 16 salt bytes. */
  datatype SaltRecord = SaltRecord(slen: int, typ: int, iter: nat, s: seq<byte>) {
    /** What the crypt routines read: a salt length within the 16-byte array and a 32-bit count. */
    predicate WellFormed() {
      0 <= slen <= SALT_LENGTH && |s| == SALT_LENGTH && iter < Decimal.U32
    }
  }

  /** The fatal paths of get_salt and binary (error(), or a read or copy outside the buffers). */
  datatype ParseError =
    | BadSignature          // no tag matches, even ignoring case
    | MissingBrace          // the scan for '}' runs off the end
    | SaltLengthOutOfRange  // memcpy of a negative or over-long salt length
    | ShortPayload          // fewer than 16 decoded bytes to copy

  /** The decoded base64 after the first '}' of `s`. */
  function Payload(s: seq<byte>): (r: Result<seq<byte>, ParseError>)
    ensures r.Failure? <==> RBRACE !in s
    ensures r.Failure? ==> r.error == MissingBrace
  {
    var b := Find(s, RBRACE);
    if b == |s| then Failure(MissingBrace) else Success(Base64.Decode(s[b + 1..]))
  }

  /**
   * get_salt: skips the signature without looking at it, matches a tag
   * ignoring case, and reads the rest with SaltBody.
   */
  function GetSalt(t: seq<byte>): (r: Result<SaltRecord, ParseError>)
    requires |t| >= |SIGNATURE|
    ensures r.Success? ==> r.value.WellFormed() && TypeOf(r.value.typ).Some?
  {
    match AnyCaseTag(t)
    case None => Failure(BadSignature)
    case Some(h) => SaltBody(h, t[|SIGNATURE| + |Tag(h)|..])
  }

  /**
   * The rest of get_salt: the count read by "%u" right after the tag (0
   * when nothing converts), and the decoded bytes after the digest as the
   * salt, zero-padded to 16.
   */
  function SaltBody(h: HashType, s: seq<byte>): (r: Result<SaltRecord, ParseError>)
    ensures r.Success? ==> r.value.WellFormed() && r.value.typ == TypeNumber(h)
  {
    match Payload(s)
    case Failure(e) => Failure(e)
    case Success(data) =>
      var iter := match Decimal.ScanU(s) case Some(v) => v case None => 0;
      var size := DigestSize(h);
      var slen := |data| - size;
      if slen < 0 || slen > SALT_LENGTH then Failure(SaltLengthOutOfRange)
      else Success(SaltRecord(slen, TypeNumber(h), iter, data[size..] + Zeros(SALT_LENGTH - slen)))
  }

  /** binary: the first 16 decoded payload bytes, the stored digest's prefix. */
  function Binary(t: seq<byte>): (r: Result<seq<byte>, ParseError>)
    requires |t| >= |SIGNATURE|
    ensures r.Success? ==> |r.value| == BINARY_SIZE
  {
    match AnyCaseTag(t)
    case None => Failure(BadSignature)
    case Some(h) =>
      match Payload(t[|SIGNATURE| + |Tag(h)|..])
      case Failure(e) => Failure(e)
      case Success(data) =>
        if |data| < BINARY_SIZE then Failure(ShortPayload) else Success(data[..BINARY_SIZE])
  }

  // ---------------------------------------------------------------------
  // The record grammar get_salt and binary read, and valid as intended.

  /**
   * A record cut where get_salt and binary cut it: the tag, the count up to
   * the first '}', the payload up to the next space, and what follows it.
   */
  datatype Fields = Fields(h: HashType, count: seq<byte>, payload: seq<byte>, tail: seq<byte>) {
    /** The text after the tag. */
    function Body(): seq<byte> {
      count + [RBRACE] + payload + tail
    }

    /** What ValidStrict demands of the fields. */
    predicate Acceptable() {
      && Decimal.IsDecU(count)
      && |payload| > 0
      && Base64.IsToken(payload)
      && 1 <= |Base64.Decode(payload)| - DigestSize(h) <= SALT_LENGTH
    }
  }

  function Parse(t: seq<byte>): Option<Fields> {
    if !HasAt(t, 0, SIGNATURE) then None
    else match ExactTag(t)
      case None => None
      case Some(h) => Cut(h, t[|SIGNATURE| + |Tag(h)|..])
  }

  /** The text after the tag cut at its first '}' and the first space after that. */
  function Cut(h: HashType, s: seq<byte>): Option<Fields> {
    var b := Find(s, RBRACE);
    if b == |s| then None
    else
      var rest := s[b + 1..];
      var e := Find(rest, SPACE);
      Some(Fields(h, s[..b], rest[..e], rest[e..]))
  }

  /**
   * valid as evidently intended: the count directly after the tag and the
   * payload directly after the '}', so that get_salt reads what was checked.
   */
  predicate ValidStrict(t: seq<byte>)
    ensures ValidStrict(t) ==> HasAt(t, 0, SIGNATURE) && ExactTag(t).Some? && RBRACE in t
  {
    match Parse(t)
    case None => false
    case Some(f) => f.Acceptable()
  }

  /** The text of a record: signature, tag, count, '}', base64 of digest and salt. */
  function Render(h: HashType, iter: nat, digest: seq<byte>, salt: seq<byte>): seq<byte> {
    SIGNATURE + Tag(h) + Decimal.Render(iter) + [RBRACE] + Base64.Encode(digest + salt)
  }

  lemma WordsDiffer(a: seq<byte>, b: seq<byte>, k: nat)
    requires k < |a| && k < |b| && a[k] != b[k]
    ensures a != b
  {
  }

  /** Only its own tag matches a text that carries one, with or without case. */
  lemma TagsMatch(t: seq<byte>, h: HashType)
    requires HasAt(t, |SIGNATURE|, Tag(h))
    ensures ExactTag(t) == Some(h) && AnyCaseTag(t) == Some(h)
  {
    CaseMatch(t, |SIGNATURE|, Tag(h));
    if h != Sha1 { TagAbsent(t, h, Sha1); }
    if h != Sha256 { TagAbsent(t, h, Sha256); }
    if h != Sha384 { TagAbsent(t, h, Sha384); }
  }

  /** An exact match is also a match ignoring case. */
  lemma CaseMatch(t: seq<byte>, k: nat, w: seq<byte>)
    requires HasAt(t, k, w)
    ensures HasAtAnyCase(t, k, w)
  {
  }

  /** A text carrying one tag carries no other, not even ignoring case. */
  lemma TagAbsent(t: seq<byte>, h: HashType, g: HashType)
    requires HasAt(t, |SIGNATURE|, Tag(h)) && g != h
    ensures !HasAtAnyCase(t, |SIGNATURE|, Tag(g)) && !HasAt(t, |SIGNATURE|, Tag(g))
  {
    var k := |SIGNATURE|;
    var w, v := Tag(h), Tag(g);
    if k + |v| <= |t| {
      assert t[k..k + |w|][3] == w[3];
      assert t[k..k + |v|][3] == w[3];
      TagsDifferAt3(h, g);
      WordsDiffer(LowerAll(t[k..k + |v|]), LowerAll(v), 3);
      WordsDiffer(t[k..k + |v|], v, 3);
    }
  }

  /** The four tags differ in their fourth character, also ignoring case. */
  lemma TagsDifferAt3(h: HashType, g: HashType)
    requires g != h
    ensures ToLower(Tag(h)[3]) != ToLower(Tag(g)[3])
  {
  }

  /** The signature and a tag, then a body: where each piece sits. */
  lemma TagText(h: HashType, s: seq<byte>)
    ensures var t := SIGNATURE + Tag(h) + s;
      && HasAt(t, 0, SIGNATURE) && HasAt(t, |SIGNATURE|, Tag(h))
      && t[|SIGNATURE| + |Tag(h)|..] == s
      && (RBRACE in t <==> RBRACE in s)
  {
    var t := SIGNATURE + Tag(h) + s;
    var p := |SIGNATURE| + |Tag(h)|;
    assert t[..|SIGNATURE|] == SIGNATURE;
    assert t[|SIGNATURE|..p] == Tag(h);
    assert t == (SIGNATURE + Tag(h)) + s;
    assert RBRACE !in SIGNATURE + Tag(h);
  }

  /** A text that starts with the signature and a tag is those two and the rest. */
  lemma SplitAtTag(t: seq<byte>, h: HashType)
    requires HasAt(t, 0, SIGNATURE) && HasAt(t, |SIGNATURE|, Tag(h))
    ensures t == SIGNATURE + Tag(h) + t[|SIGNATURE| + |Tag(h)|..]
  {
    var p := |SIGNATURE| + |Tag(h)|;
    assert t[..|SIGNATURE|] == SIGNATURE;
    assert t[|SIGNATURE|..p] == Tag(h);
    assert t == t[..|SIGNATURE|] + t[|SIGNATURE|..p] + t[p..];
  }

  /** valid on the signature, a tag and a body: the body check, given a '}' somewhere. */
  lemma ValidAfterTag(h: HashType, s: seq<byte>)
    ensures Valid(SIGNATURE + Tag(h) + s) == (RBRACE in s && ValidBody(h, s))
  {
    var t := SIGNATURE + Tag(h) + s;
    TagText(h, s);
    TagsMatch(t, h);
    FirstSpace(t, h);
  }

  /** Parse on the signature, a tag and a body: Cut of the body. */
  lemma ParseAfterTag(h: HashType, s: seq<byte>)
    ensures Parse(SIGNATURE + Tag(h) + s) == Cut(h, s)
  {
    TagText(h, s);
    TagsMatch(SIGNATURE + Tag(h) + s, h);
  }

  /** get_salt on the signature, a tag and a body: SaltBody of the body. */
  lemma GetSaltAfterTag(h: HashType, s: seq<byte>)
    ensures |SIGNATURE + Tag(h) + s| >= |SIGNATURE|
    ensures GetSalt(SIGNATURE + Tag(h) + s) == SaltBody(h, s)
  {
    TagText(h, s);
    TagsMatch(SIGNATURE + Tag(h) + s, h);
  }

  /** binary on the signature, a tag and a body with a payload: its first 16 bytes. */
  lemma BinaryAfterTag(h: HashType, s: seq<byte>, data: seq<byte>)
    requires Payload(s) == Success(data) && |data| >= BINARY_SIZE
    ensures |SIGNATURE + Tag(h) + s| >= |SIGNATURE|
    ensures Binary(SIGNATURE + Tag(h) + s) == Success(data[..BINARY_SIZE])
  {
    TagText(h, s);
    TagsMatch(SIGNATURE + Tag(h) + s, h);
  }

  /** Find stops at a delimiter that directly follows a prefix without one. */
  lemma FindAfter(a: seq<byte>, x: byte, b: seq<byte>)
    requires x !in a
    requires b == [] || b[0] == x
    ensures Find(a + b, x) == |a|
  {
    var s := a + b;
    assert forall j | 0 <= j < |a| :: s[j] == a[j];
    if b != [] {
      assert s[|a|] == x;
    } else {
      assert s == a;
    }
  }

  /** The two halves of a concatenation. */
  lemma Halves(a: seq<byte>, b: seq<byte>)
    ensures (a + b)[..|a|] == a && (a + b)[|a|..] == b
  {
  }

  /** A body's first '}' is the one after its count. */
  lemma BodyAfterBrace(f: Fields)
    requires RBRACE !in f.count
    ensures Find(f.Body(), RBRACE) == |f.count| < |f.Body()|
    ensures f.Body()[..|f.count|] == f.count
    ensures f.Body()[|f.count| + 1..] == f.payload + f.tail
  {
    var s := f.Body();
    assert s == f.count + ([RBRACE] + (f.payload + f.tail));
    FindAfter(f.count, RBRACE, [RBRACE] + (f.payload + f.tail));
  }

  /** A text cut at position `b` is what comes before, the byte there and what follows. */
  lemma CutAt(s: seq<byte>, b: nat, e: nat)
    requires b < |s| && e <= |s| - b - 1
    ensures s == s[..b] + [s[b]] + s[b + 1..][..e] + s[b + 1..][e..]
  {
    var rest := s[b + 1..];
    assert rest == rest[..e] + rest[e..];
    assert s == s[..b] + [s[b]] + rest;
  }

  /** The body Cut cuts, put back together. */
  lemma CutDecomposes(h: HashType, s: seq<byte>)
    requires Cut(h, s).Some?
    ensures var f := Cut(h, s).value;
      && s == f.Body() && f.h == h
      && RBRACE !in f.count && SPACE !in f.payload
      && (f.tail == [] || f.tail[0] == SPACE)
  {
    CutJoins(h, s);
    CutDelimits(h, s);
  }

  lemma CutJoins(h: HashType, s: seq<byte>)
    requires Cut(h, s).Some?
    ensures s == Cut(h, s).value.Body() && Cut(h, s).value.h == h
  {
    var b := Find(s, RBRACE);
    var rest := s[b + 1..];
    var e := Find(rest, SPACE);
    CutIs(h, s, b, rest, e);
    CutAt(s, b, e);
  }

  lemma CutDelimits(h: HashType, s: seq<byte>)
    requires Cut(h, s).Some?
    ensures var f := Cut(h, s).value;
      && RBRACE !in f.count && SPACE !in f.payload
      && (f.tail == [] || f.tail[0] == SPACE)
  {
    var b := Find(s, RBRACE);
    var rest := s[b + 1..];
    var e := Find(rest, SPACE);
    CutIs(h, s, b, rest, e);
    TailAtSpace(rest, e);
  }

  /** Cut's fields, in terms of the '}' and the space it finds. */
  lemma CutIs(h: HashType, s: seq<byte>, b: nat, rest: seq<byte>, e: nat)
    requires b == Find(s, RBRACE) && b < |s|
    requires rest == s[b + 1..] && e == Find(rest, SPACE)
    ensures Cut(h, s) == Some(Fields(h, s[..b], rest[..e], rest[e..]))
  {
  }

  /** What follows the first space search is empty or starts with the space. */
  lemma TailAtSpace(rest: seq<byte>, e: nat)
    requires e == Find(rest, SPACE)
    ensures rest[e..] == [] || rest[e..][0] == SPACE
  {
    if e < |rest| {
      assert rest[e..][0] == rest[e];
    }
  }

  /** Cut cuts a body built from such pieces back into them. */
  lemma CutOfParts(f: Fields)
    requires RBRACE !in f.count && SPACE !in f.payload
    requires f.tail == [] || f.tail[0] == SPACE
    ensures Cut(f.h, f.Body()) == Some(f)
  {
    BodyAfterBrace(f);
    FindAfter(f.payload, SPACE, f.tail);
    Halves(f.payload, f.tail);
  }

  /** A text Parse cuts is the signature, a tag and the cut body. */
  lemma ParseDecomposes(t: seq<byte>)
    requires Parse(t).Some?
    ensures var f := Parse(t).value;
      && t == SIGNATURE + Tag(f.h) + f.Body()
      && RBRACE !in f.count && SPACE !in f.payload
      && (f.tail == [] || f.tail[0] == SPACE)
  {
    var h := ExactTag(t).value;
    SplitAtTag(t, h);
    CutDecomposes(h, t[|SIGNATURE| + |Tag(h)|..]);
  }

  /** strtok on text that does not start with a delimiter. */
  lemma StrtokFromStart(s: seq<byte>, d: byte)
    requires s != [] && s[0] != d
    ensures var j := Find(s, d);
      Strtok(s, d) == Some((s[..j], if j < |s| then s[j + 1..] else []))
  {
    assert SkipRun(s, d) == 0;
    assert s[0..] == s;
  }

  /** strtok skips a leading delimiter. */
  lemma StrtokSkips(s: seq<byte>, d: byte)
    ensures Strtok([d] + s, d) == Strtok(s, d)
  {
    var i := SkipRun(s, d);
    SkipRunCons(d, s);
    DropAfterCons(d, s, i);
    StrtokShift(s, [d] + s, d, i);
  }

  /** Two texts whose delimiter runs end before the same suffix give the same strtok. */
  lemma StrtokShift(s: seq<byte>, t: seq<byte>, d: byte, i: nat)
    requires i == SkipRun(s, d) && SkipRun(t, d) == 1 + i
    requires |t| == |s| + 1 && t[1 + i..] == s[i..]
    ensures Strtok(t, d) == Strtok(s, d)
  {
    StrtokFrom(s, d, i);
    StrtokFrom(t, d, 1 + i);
  }

  /** strtok depends only on where the delimiter run ends and what follows it. */
  lemma StrtokFrom(s: seq<byte>, d: byte, i: nat)
    requires i == SkipRun(s, d)
    ensures Strtok(s, d) == if i == |s| then None else Token(s[i..], d)
  {
  }

  /** A leading delimiter adds one to the run of delimiters. */
  lemma SkipRunCons(d: byte, s: seq<byte>)
    ensures SkipRun([d] + s, d) == 1 + SkipRun(s, d)
  {
    assert ([d] + s)[1..] == s;
  }

  lemma DropAfterCons(d: byte, s: seq<byte>, i: nat)
    requires i <= |s|
    ensures ([d] + s)[i + 1..] == s[i..]
  {
    assert forall k | 0 <= k < |s| - i :: ([d] + s)[i + 1..][k] == s[i..][k];
  }

  /** valid after the count's '}': ValidBody with its first strtok done. */
  function ValidRest(h: HashType, count: seq<byte>, rest: seq<byte>): bool {
    if !Decimal.IsDecU(count) then false
    else match Strtok(rest, SPACE)
      case None => false
      case Some((payload, _)) =>
        if |payload| != Base64.ValidLength(payload) then false
        else
          var len := |Base64.Decode(payload)| - DigestSize(h);
          1 <= len <= SALT_LENGTH
  }

  /** The first strtok of valid on a body: the count and what follows its '}'. */
  lemma ValidBodyCount(h: HashType, count: seq<byte>, rest: seq<byte>)
    requires RBRACE !in count && |count| > 0
    ensures ValidBody(h, count + [RBRACE] + rest) == ValidRest(h, count, rest)
  {
    var s := count + [RBRACE] + rest;
    assert s == count + ([RBRACE] + rest);
    FindAfter(count, RBRACE, [RBRACE] + rest);
    StrtokFromStart(s, RBRACE);
    assert s[..|count|] == count;
    assert s[|count| + 1..] == rest;
  }

  /**
   * On fields whose count is not empty and whose payload (if any text
   * follows the '}') follows it directly, valid's body check decides as
   * ValidStrict.
   */
  lemma ValidOnAdjacentFields(f: Fields)
    requires RBRACE !in f.count && SPACE !in f.payload
    requires f.tail == [] || f.tail[0] == SPACE
    requires |f.count| > 0 && (|f.payload| > 0 || f.tail == [])
    ensures ValidBody(f.h, f.Body()) == f.Acceptable()
  {
    assert f.Body() == f.count + [RBRACE] + (f.payload + f.tail);
    ValidBodyCount(f.h, f.count, f.payload + f.tail);
    if f.payload != [] {
      FindAfter(f.payload, SPACE, f.tail);
      StrtokFromStart(f.payload + f.tail, SPACE);
      assert (f.payload + f.tail)[..|f.payload|] == f.payload;
    } else {
      assert f.payload + f.tail == [];
    }
  }

  /** What ValidStrict accepts, valid accepts too. */
  lemma ValidStrictIsValid(t: seq<byte>)
    requires ValidStrict(t)
    ensures Valid(t)
  {
    var f := Parse(t).value;
    ParseDecomposes(t);
    ValidAfterTag(f.h, f.Body());
    BodyAfterBrace(f);
    ValidOnAdjacentFields(f);
  }

  /** The count at the head of a body converts with "%u". */
  lemma BodyCount(f: Fields)
    requires Decimal.IsDecU(f.count)
    ensures Decimal.ScanU(f.Body()) == Some(Decimal.Value(f.count))
  {
    assert f.Body() == f.count + ([RBRACE] + (f.payload + f.tail));
    Decimal.ScanUOfDecU(f.count, [RBRACE] + (f.payload + f.tail));
  }

  /** The payload of a body decodes alone, whatever tail follows. */
  lemma BodyPayload(f: Fields)
    requires RBRACE !in f.count && (f.tail == [] || f.tail[0] == SPACE)
    requires Base64.IsToken(f.payload)
    ensures Payload(f.Body()) == Success(Base64.Decode(f.payload))
  {
    BodyAfterBrace(f);
    Base64.TokenThenTail(f.payload, f.tail);
  }

  /** The payload and the count get_salt reads from a body with these fields. */
  lemma BodyFacts(f: Fields, s: seq<byte>)
    requires s == f.Body()
    requires RBRACE !in f.count && (f.tail == [] || f.tail[0] == SPACE)
    requires Decimal.IsDecU(f.count) && Base64.IsToken(f.payload)
    ensures Payload(s) == Success(Base64.Decode(f.payload))
    ensures Decimal.ScanU(s) == Some(Decimal.Value(f.count))
  {
    BodyPayload(f);
    BodyCount(f);
  }

  /** get_salt's body once the payload and the count are known. */
  lemma SaltBodyIs(h: HashType, s: seq<byte>, data: seq<byte>, v: nat, r: SaltRecord)
    requires Payload(s) == Success(data) && Decimal.ScanU(s) == Some(v)
    requires 0 <= |data| - DigestSize(h) <= SALT_LENGTH
    requires r == SaltOfPayload(h, data, v)
    ensures SaltBody(h, s) == Success(r)
  {
  }

  /** The salt record get_salt builds from a decoded payload and a count. */
  function SaltOfPayload(h: HashType, data: seq<byte>, v: nat): SaltRecord
    requires 0 <= |data| - DigestSize(h) <= SALT_LENGTH
  {
    var size := DigestSize(h);
    SaltRecord(|data| - size, TypeNumber(h), v, data[size..] + Zeros(SALT_LENGTH - (|data| - size)))
  }

  /** get_salt on a record with these fields: type, count, salt length and salt bytes from the payload. */
  lemma SaltOfFields(f: Fields)
    requires RBRACE !in f.count && (f.tail == [] || f.tail[0] == SPACE)
    requires Decimal.IsDecU(f.count) && Base64.IsToken(f.payload)
    requires 0 <= |Base64.Decode(f.payload)| - DigestSize(f.h) <= SALT_LENGTH
    ensures |SIGNATURE + Tag(f.h) + f.Body()| >= |SIGNATURE|
    ensures GetSalt(SIGNATURE + Tag(f.h) + f.Body()) == Success(SaltOfPayload(f.h, Base64.Decode(f.payload), Decimal.Value(f.count)))
  {
    var s := f.Body();
    var data := Base64.Decode(f.payload);
    BodyFacts(f, s);
    SaltBodyIs(f.h, s, data, Decimal.Value(f.count), SaltOfPayload(f.h, data, Decimal.Value(f.count)));
    GetSaltAfterTag(f.h, s);
  }

  /** binary on a record with these fields: the first 16 decoded payload bytes. */
  lemma BinaryOfFields(f: Fields)
    requires RBRACE !in f.count && (f.tail == [] || f.tail[0] == SPACE)
    requires Base64.IsToken(f.payload) && |Base64.Decode(f.payload)| >= BINARY_SIZE
    ensures |SIGNATURE + Tag(f.h) + f.Body()| >= |SIGNATURE|
    ensures Binary(SIGNATURE + Tag(f.h) + f.Body()) == Success(Base64.Decode(f.payload)[..BINARY_SIZE])
  {
    BodyPayload(f);
    BinaryAfterTag(f.h, f.Body(), Base64.Decode(f.payload));
  }

  /** What ValidStrict says about the fields Parse cuts, one fact at a time. */
  lemma StrictFacts(t: seq<byte>)
    requires ValidStrict(t)
    ensures var f := Parse(t).value;
      && t == SIGNATURE + Tag(f.h) + f.Body()
      && RBRACE !in f.count && SPACE !in f.payload
      && (f.tail == [] || f.tail[0] == SPACE)
      && Decimal.IsDecU(f.count) && Base64.IsToken(f.payload) && |f.payload| > 0
      && 1 <= |Base64.Decode(f.payload)| - DigestSize(f.h) <= SALT_LENGTH
  {
    ParseDecomposes(t);
  }

  /**
   * For a record ValidStrict accepts, get_salt gives the tag's type, the
   * count, the decoded length less the digest size as salt length, and the
   * decoded bytes after the digest as salt.
   */
  lemma SaltOfValidStrict(t: seq<byte>)
    requires ValidStrict(t)
    ensures |t| >= |SIGNATURE|
    ensures var f := Parse(t).value;
      GetSalt(t) == Success(SaltOfPayload(f.h, Base64.Decode(f.payload), Decimal.Value(f.count)))
  {
    StrictFacts(t);
    SaltOfFields(Parse(t).value);
  }

  /** For a record ValidStrict accepts, binary gives the first 16 decoded bytes. */
  lemma BinaryOfValidStrict(t: seq<byte>)
    requires ValidStrict(t)
    ensures |t| >= |SIGNATURE|
    ensures Binary(t) == Success(Base64.Decode(Parse(t).value.payload)[..BINARY_SIZE])
  {
    StrictFacts(t);
    BinaryOfFields(Parse(t).value);
  }

  /** A record is the signature and the tag ahead of the body of its fields. */
  lemma RenderJoins(h: HashType, iter: nat, digest: seq<byte>, salt: seq<byte>)
    ensures Render(h, iter, digest, salt)
      == SIGNATURE + Tag(h) + Fields(h, Decimal.Render(iter), Base64.Encode(digest + salt), []).Body()
  {
    var c, p := Decimal.Render(iter), Base64.Encode(digest + salt);
    assert Fields(h, c, p, []).Body() == c + [RBRACE] + p;
    assert SIGNATURE + Tag(h) + (c + [RBRACE] + p) == SIGNATURE + Tag(h) + c + [RBRACE] + p;
  }

  /** The fields of a rendered record, and the bytes of its count and payload. */
  lemma RenderShape(h: HashType, iter: nat, digest: seq<byte>, salt: seq<byte>)
    requires iter < Decimal.U32 && |digest + salt| > 0
    ensures var f := Fields(h, Decimal.Render(iter), Base64.Encode(digest + salt), []);
      && Render(h, iter, digest, salt) == SIGNATURE + Tag(h) + f.Body()
      && RBRACE !in f.count && SPACE !in f.payload && |f.count| > 0 && |f.payload| > 0
      && Decimal.IsDecU(f.count) && Decimal.Value(f.count) == iter
      && Base64.IsToken(f.payload) && Base64.Decode(f.payload) == digest + salt
  {
    var f := Fields(h, Decimal.Render(iter), Base64.Encode(digest + salt), []);
    RenderJoins(h, iter, digest, salt);
    Decimal.RenderIsDecU(iter);
    Decimal.ValueOfRender(iter);
    Decimal.DigitsAreNotDelimiters(f.count);
    Base64.DecodeEncode(digest + salt);
    Base64.TokenBytes(f.payload);
    Base64.EncodeNonEmpty(digest + salt);
  }

  /** A rendered record is accepted exactly when its fields are acceptable, and parses to them. */
  lemma RenderFields(h: HashType, iter: nat, digest: seq<byte>, salt: seq<byte>)
    requires iter < Decimal.U32 && |digest + salt| > 0
    ensures var f := Fields(h, Decimal.Render(iter), Base64.Encode(digest + salt), []);
      && Parse(Render(h, iter, digest, salt)) == Some(f)
      && Valid(Render(h, iter, digest, salt)) == f.Acceptable()
  {
    var f := Fields(h, Decimal.Render(iter), Base64.Encode(digest + salt), []);
    RenderShape(h, iter, digest, salt);
    CutOfParts(f);
    ParseAfterTag(h, f.Body());
    ValidAfterTag(h, f.Body());
    BodyAfterBrace(f);
    ValidOnAdjacentFields(f);
  }

  /** get_salt on a rendered record gives back its type, count and salt. */
  lemma RenderSalt(h: HashType, iter: nat, digest: seq<byte>, salt: seq<byte>)
    requires iter < Decimal.U32
    requires |digest| == DigestSize(h) && 1 <= |salt| <= SALT_LENGTH
    ensures |Render(h, iter, digest, salt)| >= |SIGNATURE|
    ensures GetSalt(Render(h, iter, digest, salt)) == Success(SaltRecord(|salt|, TypeNumber(h), iter, salt + Zeros(SALT_LENGTH - |salt|)))
  {
    RenderPayloadSalt(h, iter, digest, salt);
    SaltOfDigestAndSalt(h, iter, digest, salt);
  }

  /** get_salt on a rendered record reads the salt record of its decoded payload, digest and salt. */
  lemma RenderPayloadSalt(h: HashType, iter: nat, digest: seq<byte>, salt: seq<byte>)
    requires iter < Decimal.U32
    requires |digest| == DigestSize(h) && 1 <= |salt| <= SALT_LENGTH
    ensures |Render(h, iter, digest, salt)| >= |SIGNATURE|
    ensures GetSalt(Render(h, iter, digest, salt)) == Success(SaltOfPayload(h, digest + salt, iter))
  {
    var f := Fields(h, Decimal.Render(iter), Base64.Encode(digest + salt), []);
    RenderShape(h, iter, digest, salt);
    SaltOfFields(f);
  }

  /** The salt record of digest and salt: the salt's length and the salt, zero-padded. */
  lemma SaltOfDigestAndSalt(h: HashType, iter: nat, digest: seq<byte>, salt: seq<byte>)
    requires |digest| == DigestSize(h) && 1 <= |salt| <= SALT_LENGTH
    ensures SaltOfPayload(h, digest + salt, iter) == SaltRecord(|salt|, TypeNumber(h), iter, salt + Zeros(SALT_LENGTH - |salt|))
  {
    Halves(digest, salt);
  }

  /** binary on a record with a count, a '}' and a payload that decodes to `data`. */
  lemma BinaryOfRecord(h: HashType, count: seq<byte>, payload: seq<byte>, data: seq<byte>)
    requires RBRACE !in count
    requires Base64.IsToken(payload) && Base64.Decode(payload) == data && |data| >= BINARY_SIZE
    ensures |SIGNATURE + Tag(h) + count + [RBRACE] + payload| >= |SIGNATURE|
    ensures Binary(SIGNATURE + Tag(h) + count + [RBRACE] + payload) == Success(data[..BINARY_SIZE])
  {
    var f := Fields(h, count, payload, []);
    assert SIGNATURE + Tag(h) + count + [RBRACE] + payload == SIGNATURE + Tag(h) + f.Body();
    BinaryOfFields(f);
  }

  /** binary on a rendered record gives back the digest's first 16 bytes. */
  lemma RenderBinary(h: HashType, iter: nat, digest: seq<byte>, salt: seq<byte>)
    requires iter < Decimal.U32
    requires |digest| == DigestSize(h) && 1 <= |salt| <= SALT_LENGTH
    ensures |Render(h, iter, digest, salt)| >= |SIGNATURE|
    ensures Binary(Render(h, iter, digest, salt)) == Success(digest[..BINARY_SIZE])
  {
    RenderShape(h, iter, digest, salt);
    BinaryOfRecord(h, Decimal.Render(iter), Base64.Encode(digest + salt), digest + salt);
    PrefixOfAppend(digest, salt, BINARY_SIZE);
  }

  /**
   * Round trip: a rendered record with a digest of the tag's size and 1 to
   * 16 salt bytes is accepted, and get_salt and binary give back its type,
   * count, salt and the digest's first 16 bytes.
   */
  lemma RenderRoundTrip(h: HashType, iter: nat, digest: seq<byte>, salt: seq<byte>)
    requires iter < Decimal.U32
    requires |digest| == DigestSize(h) && 1 <= |salt| <= SALT_LENGTH
    ensures var t := Render(h, iter, digest, salt);
      && ValidStrict(t) && Valid(t)
      && GetSalt(t) == Success(SaltRecord(|salt|, TypeNumber(h), iter, salt + Zeros(SALT_LENGTH - |salt|)))
      && Binary(t) == Success(digest[..BINARY_SIZE])
  {
    RenderShape(h, iter, digest, salt);
    RenderFields(h, iter, digest, salt);
    RenderSalt(h, iter, digest, salt);
    RenderBinary(h, iter, digest, salt);
  }

  /**
   * The salt-length bound: a rendered record is accepted exactly when its
   * salt has 1 to 16 bytes, so 16 is accepted and 17 rejected.
   */
  lemma SaltLengthBoundary(h: HashType, iter: nat, digest: seq<byte>, salt: seq<byte>)
    requires iter < Decimal.U32
    requires |digest| == DigestSize(h)
    ensures Valid(Render(h, iter, digest, salt)) <==> 1 <= |salt| <= SALT_LENGTH
  {
    RenderShape(h, iter, digest, salt);
    RenderFields(h, iter, digest, salt);
  }

  /** valid accepts an iteration count of 0; get_salt then records 0. */
  lemma ZeroIterationsAccepted(h: HashType, digest: seq<byte>, salt: seq<byte>)
    requires |digest| == DigestSize(h) && 1 <= |salt| <= SALT_LENGTH
    ensures Valid(Render(h, 0, digest, salt))
    ensures GetSalt(Render(h, 0, digest, salt)).Success?
    ensures GetSalt(Render(h, 0, digest, salt)).value.iter == 0
  {
    RenderRoundTrip(h, 0, digest, salt);
  }

  /** "SHA, " in upper case: the text no case-sensitive tag matches. */
  const UPPER_SHA1: seq<byte> := ['S' as byte, 'H' as byte, 'A' as byte, ',' as byte, ' ' as byte]

  lemma UpperShaNoExactTag(t: seq<byte>)
    requires HasAt(t, |SIGNATURE|, UPPER_SHA1)
    ensures ExactTag(t) == None
  {
    var k := |SIGNATURE|;
    assert t[k..k + 5] == UPPER_SHA1;
    WordsDiffer(t[k..k + 5], Tag(Sha1), 0);
    WordsDiffer(t[k..k + 5], Tag(Sha256)[..5], 3);
    WordsDiffer(t[k..k + 5], Tag(Sha384)[..5], 3);
    WordsDiffer(t[k..k + 5], Tag(Sha512)[..5], 3);
  }

  lemma UpperShaAnyCaseTag(t: seq<byte>)
    requires HasAt(t, |SIGNATURE|, UPPER_SHA1)
    ensures AnyCaseTag(t) == Some(Sha1)
  {
    var k := |SIGNATURE|;
    assert t[k..k + 5] == UPPER_SHA1;
    assert LowerAll(UPPER_SHA1) == LowerAll(Tag(Sha1));
  }

  /**
   * valid matches tags case-sensitively, get_salt and binary ignore case:
   * "{x-isSHA, " is refused by valid but read as SHA-1 by get_salt.
   */
  lemma TagCaseDiffers(rest: seq<byte>)
    ensures var t := SIGNATURE + UPPER_SHA1 + rest;
      !Valid(t) && AnyCaseTag(t) == Some(Sha1)
  {
    var t := SIGNATURE + UPPER_SHA1 + rest;
    assert t[|SIGNATURE|..|SIGNATURE| + 5] == UPPER_SHA1;
    UpperShaNoExactTag(t);
    UpperShaAnyCaseTag(t);
  }

  /** A tag valid accepts is the one get_salt and binary read. */
  lemma ExactTagIsAnyCaseTag(t: seq<byte>)
    requires ExactTag(t).Some?
    ensures AnyCaseTag(t) == ExactTag(t)
  {
    TagsMatch(t, ExactTag(t).value);
  }

  /** The body of ValidSkipsEmptyCount passes valid's body check exactly when the unmodified body does. */
  lemma EmptyCountValidBody(f: Fields)
    ensures var s := [RBRACE] + f.Body();
      RBRACE in s && ValidBody(f.h, s) == ValidBody(f.h, f.Body())
  {
    StrtokSkips(f.Body(), RBRACE);
    assert ([RBRACE] + f.Body())[0] == RBRACE;
  }

  /** ... and it converts no count. */
  lemma EmptyCountScan(f: Fields)
    ensures Decimal.ScanU([RBRACE] + f.Body()) == None
  {
    Decimal.ScanUFails([RBRACE] + f.Body());
  }

  /** ... and Parse reads an empty count, with the real count moved into the payload. */
  lemma EmptyCountCut(f: Fields)
    requires RBRACE !in f.count && SPACE !in f.payload && Decimal.AllDigits(f.count)
    requires f.tail == [] || f.tail[0] == SPACE
    ensures Cut(f.h, [RBRACE] + f.Body()) == Some(Fields(f.h, [], f.count + [RBRACE] + f.payload, f.tail))
  {
    Decimal.DigitsAreNotDelimiters(f.count);
    var g := Fields(f.h, [], f.count + [RBRACE] + f.payload, f.tail);
    assert g.Body() == [RBRACE] + f.Body();
    CutOfParts(g);
  }

  /** get_salt on a body without a count: no iterations, or a failure. */
  lemma SaltBodyWithoutCount(h: HashType, s: seq<byte>)
    requires Decimal.ScanU(s) == None
    ensures SaltBody(h, s).Failure? || SaltBody(h, s).value.iter == 0
  {
  }

  /**
   * valid's strtok skips a '}' standing where the count should begin; get_salt
   * does not, so it converts no count and records 0 iterations (or fails)
   * for a record valid accepts.
   */
  lemma ValidSkipsEmptyCount(t: seq<byte>)
    requires ValidStrict(t)
    ensures var f := Parse(t).value;
      var u := SIGNATURE + Tag(f.h) + ([RBRACE] + f.Body());
      && |u| >= |SIGNATURE|
      && Valid(u) && !ValidStrict(u)
      && (GetSalt(u).Failure? || GetSalt(u).value.iter == 0)
  {
    var f := Parse(t).value;
    var s := [RBRACE] + f.Body();
    ParseDecomposes(t);
    ValidStrictIsValid(t);
    ValidAfterTag(f.h, f.Body());
    ValidAfterTag(f.h, s);
    EmptyCountValidBody(f);
    ParseAfterTag(f.h, s);
    EmptyCountCut(f);
    EmptyCountScan(f);
    SaltBodyWithoutCount(f.h, s);
    GetSaltAfterTag(f.h, s);
  }

  /** The body of ValidSkipsSpaceBeforePayload passes valid's body check exactly when the unmodified body does. */
  lemma SpacedPayloadValidBody(f: Fields)
    requires RBRACE !in f.count && |f.count| > 0
    ensures var s := f.count + [RBRACE] + ([SPACE] + (f.payload + f.tail));
      RBRACE in s && ValidBody(f.h, s) == ValidBody(f.h, f.Body())
  {
    var rest := [SPACE] + (f.payload + f.tail);
    var s := f.count + [RBRACE] + rest;
    assert f.Body() == f.count + [RBRACE] + (f.payload + f.tail);
    ValidBodyCount(f.h, f.count, f.payload + f.tail);
    ValidBodyCount(f.h, f.count, rest);
    StrtokSkips(f.payload + f.tail, SPACE);
    assert s[|f.count|] == RBRACE;
  }

  /** ... and get_salt decodes nothing from it. */
  lemma SpacedPayloadDecodes(f: Fields)
    requires RBRACE !in f.count
    ensures Payload(f.count + [RBRACE] + ([SPACE] + (f.payload + f.tail))) == Success([])
  {
    var rest := [SPACE] + (f.payload + f.tail);
    assert f.count + [RBRACE] + rest == f.count + ([RBRACE] + rest);
    PayloadAfter(f.count, rest);
    Base64.DecodeStopsAt(rest);
  }

  /** Payload decodes what follows the first '}'. */
  lemma PayloadAfter(count: seq<byte>, rest: seq<byte>)
    requires RBRACE !in count
    ensures Payload(count + ([RBRACE] + rest)) == Success(Base64.Decode(rest))
  {
    var s := count + ([RBRACE] + rest);
    FindAfter(count, RBRACE, [RBRACE] + rest);
    assert s[|count| + 1..] == rest;
  }

  /** get_salt on a body whose payload decodes to nothing fails. */
  lemma SaltBodyEmptyPayload(h: HashType, s: seq<byte>)
    requires Payload(s) == Success([])
    ensures SaltBody(h, s).Failure?
  {
  }

  /**
   * Likewise valid's second strtok skips spaces before the payload; get_salt
   * decodes from the space, reads no base64 and fails.
   */
  lemma ValidSkipsSpaceBeforePayload(t: seq<byte>)
    requires ValidStrict(t)
    ensures var f := Parse(t).value;
      var u := SIGNATURE + Tag(f.h) + (f.count + [RBRACE] + ([SPACE] + (f.payload + f.tail)));
      && |u| >= |SIGNATURE|
      && Valid(u) && GetSalt(u).Failure?
  {
    var f := Parse(t).value;
    var s := f.count + [RBRACE] + ([SPACE] + (f.payload + f.tail));
    ParseDecomposes(t);
    ValidStrictIsValid(t);
    ValidAfterTag(f.h, f.Body());
    ValidAfterTag(f.h, s);
    SpacedPayloadValidBody(f);
    SpacedPayloadDecodes(f);
    SaltBodyEmptyPayload(f.h, s);
    GetSaltAfterTag(f.h, s);
  }

  // ---------------------------------------------------------------------
  // The iterated digest.

  /**
   * Round `k` of the chain: round 0 hashes the plaintext and the salt, every
   * later round the plaintext and the previous round's full digest.
   */
  function RoundDigest(suite: Suite, h: HashType, plain: seq<byte>, salt: seq<byte>, k: nat): (d: seq<byte>)
    ensures |d| == DigestSize(h)
  {
    if k == 0 then Hash(suite, h, plain + salt)
    else Hash(suite, h, plain + RoundDigest(suite, h, plain, salt, k - 1))
  }

  /** The 16-byte key of a candidate: the last of max(iter, 1) rounds, truncated. */
  function ChainKey(suite: Suite, h: HashType, plain: seq<byte>, salt: seq<byte>, iter: nat): (key: seq<byte>)
    ensures |key| == BINARY_SIZE
  {
    RoundDigest(suite, h, plain, salt, if iter == 0 then 0 else iter - 1)[..BINARY_SIZE]
  }

  /** A count of 0 runs round 0 only, exactly like a count of 1. */
  lemma ZeroIterationsIsOneRound(suite: Suite, h: HashType, plain: seq<byte>, salt: seq<byte>)
    ensures ChainKey(suite, h, plain, salt, 0) == ChainKey(suite, h, plain, salt, 1)
    ensures ChainKey(suite, h, plain, salt, 1) == Hash(suite, h, plain + salt)[..BINARY_SIZE]
  {
  }

  /**
   * The salt enters round 0 only: two salts whose round-0 digests agree give
   * the same digest at every later round.
   */
  lemma {:induction false} SaltOnlyInRoundZero(suite: Suite, h: HashType, plain: seq<byte>, s1: seq<byte>, s2: seq<byte>, k: nat)
    requires Hash(suite, h, plain + s1) == Hash(suite, h, plain + s2)
    ensures RoundDigest(suite, h, plain, s1, k) == RoundDigest(suite, h, plain, s2, k)
  {
    if k > 0 {
      SaltOnlyInRoundZero(suite, h, plain, s1, s2, k - 1);
    }
  }

  /** Each round hashes the plaintext and the previous round: `n` more rounds after round `k`. */
  lemma {:induction false} RoundsCompose(suite: Suite, h: HashType, plain: seq<byte>, salt: seq<byte>, k: nat, n: nat)
    ensures RoundDigest(suite, h, plain, salt, k + n) == Rehash(suite, h, plain, RoundDigest(suite, h, plain, salt, k), n)
  {
    if n > 0 {
      RoundsCompose(suite, h, plain, salt, k, n - 1);
    }
  }

  /** `n` rounds of hashing the plaintext and the current digest. */
  function Rehash(suite: Suite, h: HashType, plain: seq<byte>, d: seq<byte>, n: nat): seq<byte> {
    if n == 0 then d else Hash(suite, h, plain + Rehash(suite, h, plain, d, n - 1))
  }

  /** crypt_key entries compared in their first 32-bit word, for indices below `count`. */
  predicate AnyWordMatch(binary: seq<byte>, keys: seq<seq<byte>>, count: int)
    requires |binary| >= 4 && count <= |keys|
    requires forall i | 0 <= i < |keys| :: |keys[i]| >= 4
  {
    exists idx | 0 <= idx < count :: Word0(binary) == Word0(keys[idx])
  }

  /**
   * The quick test never rejects a full match: when the binary equals some
   * checked key, cmp_all reports a candidate.
   */
  lemma FullMatchPassesQuickTest(binary: seq<byte>, keys: seq<seq<byte>>, count: int, idx: int)
    requires |binary| == BINARY_SIZE && count <= |keys|
    requires forall i | 0 <= i < |keys| :: |keys[i]| == BINARY_SIZE
    requires 0 <= idx < count && binary == keys[idx]
    ensures AnyWordMatch(binary, keys, count)
  {
  }

  /**
   * The format's state: saved_plain and crypt_key, one slot per candidate
   * in a batch, and the current salt (NULL until set_salt).
   */
  class Format {
    const suite: Suite
    const maxKeys: nat
    var savedPlain: array<seq<byte>>
    var cryptKey: array<seq<byte>>
    var curSalt: Option<SaltRecord>

    ghost predicate Invariant()
      reads this, savedPlain, cryptKey
    {
      && maxKeys >= 1 && savedPlain != cryptKey
      && savedPlain.Length == maxKeys && cryptKey.Length == maxKeys
      && (forall i | 0 <= i < maxKeys :: IsCandidate(savedPlain[i]))
      && (forall i | 0 <= i < maxKeys :: |cryptKey[i]| == BINARY_SIZE)
      && (curSalt.Some? ==> curSalt.value.WellFormed())
    }

    /** init: zeroed buffers for `maxKeys` candidates. */
    constructor (suite: Suite, maxKeys: nat)
      requires maxKeys >= 1
      ensures Invariant() && fresh(savedPlain) && fresh(cryptKey)
      ensures this.suite == suite && this.maxKeys == maxKeys && curSalt == None
      ensures forall i | 0 <= i < maxKeys :: savedPlain[i] == [] && cryptKey[i] == Zeros(BINARY_SIZE)
    {
      this.suite := suite;
      this.maxKeys := maxKeys;
      savedPlain := new seq<byte>[maxKeys](_ => []);
      cryptKey := new seq<byte>[maxKeys](_ => Zeros(BINARY_SIZE));
      curSalt := None;
    }

    method SetSalt(salt: SaltRecord)
      requires Invariant() && salt.WellFormed()
      modifies this`curSalt
      ensures Invariant() && curSalt == Some(salt)
    {
      curSalt := Some(salt);
    }

    method SetKey(key: seq<byte>, index: int)
      requires Invariant() && 0 <= index < maxKeys && IsCandidate(key)
      modifies savedPlain
      ensures Invariant() && savedPlain[..] == old(savedPlain[..])[index := key]
    {
      savedPlain[index] := key;
    }

    method GetKey(index: int) returns (key: seq<byte>)
      requires Invariant() && 0 <= index < maxKeys
      ensures key == savedPlain[index] && IsCandidate(key)
    {
      key := savedPlain[index];
    }

    /**
     * One candidate of crypt_all_1/256/384/512: round 0 into the digest
     * area after the plaintext in `tmp`, then each later round rehashes the
     * plaintext and that area in place; the key is its first 16 bytes.
     */
    method CryptOne(h: HashType, plain: seq<byte>, salt: SaltRecord) returns (key: seq<byte>)
      requires IsCandidate(plain) && salt.WellFormed()
      ensures key == ChainKey(suite, h, plain, salt.s[..salt.slen], salt.iter)
    {
      var size := DigestSize(h);
      var s := salt.s[..salt.slen];
      var tmp := new byte[PLAINTEXT_LENGTH + size];
      CopyInto(tmp, 0, plain);
      var d := Hash(suite, h, plain + s);
      CopyInto(tmp, |plain|, d);
      var len := |plain| + size;
      var i := 1;
      while i < salt.iter
        invariant 1 <= i && (i <= salt.iter || i == 1)
        invariant tmp[..|plain|] == plain
        invariant tmp[|plain|..len] == RoundDigest(suite, h, plain, s, i - 1)
      {
        assert tmp[..len] == tmp[..|plain|] + tmp[|plain|..len];
        d := Hash(suite, h, tmp[..len]);
        CopyInto(tmp, |plain|, d);
        i := i + 1;
      }
      assert i - 1 == if salt.iter == 0 then 0 else salt.iter - 1;
      key := tmp[|plain|..len][..BINARY_SIZE];
    }

    /** crypt_all_1/256/384/512: the chain key of every candidate below `count`. */
    method CryptAllWith(h: HashType, count: int)
      requires Invariant() && curSalt.Some? && count <= maxKeys
      modifies cryptKey
      ensures Invariant()
      ensures var salt := curSalt.value;
        forall idx | 0 <= idx < maxKeys ::
          cryptKey[idx] == if idx < count then ChainKey(suite, h, savedPlain[idx], salt.s[..salt.slen], salt.iter)
                           else old(cryptKey[idx])
    {
      var salt := curSalt.value;
      var idx := 0;
      while idx < count
        invariant 0 <= idx && (idx <= count || idx == 0)
        invariant Invariant()
        invariant forall j | 0 <= j < maxKeys ::
          cryptKey[j] == if j < idx then ChainKey(suite, h, savedPlain[j], salt.s[..salt.slen], salt.iter)
                         else old(cryptKey[j])
      {
        var key := CryptOne(h, savedPlain[idx], salt);
        cryptKey[idx] := key;
        idx := idx + 1;
      }
    }

    /** crypt_all: dispatches on the salt's type; any other type computes nothing. Returns the count. */
    method CryptAll(pcount: int) returns (r: int)
      requires Invariant() && curSalt.Some? && pcount <= maxKeys
      modifies cryptKey
      ensures Invariant() && r == pcount
      ensures var salt := curSalt.value;
        forall idx | 0 <= idx < maxKeys ::
          cryptKey[idx] == match TypeOf(salt.typ)
            case Some(h) => if idx < pcount then ChainKey(suite, h, savedPlain[idx], salt.s[..salt.slen], salt.iter)
                            else old(cryptKey[idx])
            case None => old(cryptKey[idx])
    {
      r := pcount;
      match TypeOf(curSalt.value.typ)
      case Some(h) => CryptAllWith(h, pcount);
      case None =>
    }

    /** cmp_all: some candidate below `count` shares the binary's first 32-bit word. */
    method CmpAll(binary: seq<byte>, count: int) returns (r: bool)
      requires Invariant() && |binary| == BINARY_SIZE && count <= maxKeys
      ensures r == AnyWordMatch(binary, cryptKey[..], count)
    {
      var idx := 0;
      while idx < count
        invariant 0 <= idx && (idx <= count || idx == 0)
        invariant forall j | 0 <= j < idx :: Word0(binary) != Word0(cryptKey[j])
      {
        if Word0(binary) == Word0(cryptKey[idx]) {
          return true;
        }
        idx := idx + 1;
      }
      return false;
    }

    /** cmp_one: all 16 bytes of the binary equal the candidate's key. */
    function CmpOne(binary: seq<byte>, index: int): (r: bool)
      requires Invariant() && |binary| == BINARY_SIZE && 0 <= index < maxKeys
      reads this, savedPlain, cryptKey
      ensures r ==> Word0(binary) == Word0(cryptKey[index])
    {
      binary == cryptKey[index]
    }

    /** cmp_exact: nothing beyond cmp_one is checked; the 16-byte comparison is final. */
    function CmpExact(source: seq<byte>, index: int): (r: bool)
      ensures r
    {
      true
    }
  }

  /**
   * One candidate against one loaded record: set the salt get_salt produced
   * and the key, crypt, and compare with the binary. A match is exactly the
   * chain key equalling the stored digest's prefix (for a record ValidStrict
   * accepts, SaltOfValidStrict and BinaryOfValidStrict say what the salt
   * and the binary are).
   */
  method CheckCandidate(f: Format, source: seq<byte>, salt: SaltRecord, binary: seq<byte>, plain: seq<byte>)
    returns (matched: bool)
    requires f.Invariant() && salt.WellFormed() && |binary| == BINARY_SIZE && IsCandidate(plain)
    modifies f, f.savedPlain, f.cryptKey
    ensures f.Invariant()
    ensures matched <==> match TypeOf(salt.typ)
      case Some(h) => binary == ChainKey(f.suite, h, plain, salt.s[..salt.slen], salt.iter)
      case None => binary == old(f.cryptKey[0])
  {
    f.SetSalt(salt);
    f.SetKey(plain, 0);
    var n := f.CryptAll(1);
    var quick := f.CmpAll(binary, n);
    matched := quick && f.CmpOne(binary, 0) && f.CmpExact(source, 0);
    if !quick {
      assert binary != f.cryptKey[0];
    }
  }
}
