/** DER: the writer that wraps bytes in a tag and length, the small reader that takes them apart again,
    and the REALITY certificate check built on it. Sizes are those of a 64-bit `usize`. */
module Der {
  import opened Prelude

  const USIZE: nat := 0x1_0000_0000_0000_0000
  const U32: nat := 0x1_0000_0000

  const SEQUENCE: byte := 0x30
  const BIT_STRING: byte := 0x03

  // ---- lengths ----

  /** The shortest big-endian form; empty for zero. */
  function Minimal(n: nat): seq<byte> {
    if n == 0 then [] else Minimal(n / 256) + [n % 256]
  }

  /** `to_be_bytes` on k bytes. */
  function ToBytes(n: nat, k: nat): (s: seq<byte>)
    ensures |s| == k
    decreases k
  {
    if k == 0 then [] else ToBytes(n / 256, k - 1) + [n % 256]
  }

  function FromBytes(s: seq<byte>): nat {
    if s == [] then 0 else FromBytes(s[..|s| - 1]) * 256 + s[|s| - 1]
  }

  function StripZeros(s: seq<byte>): seq<byte> {
    if s != [] && s[0] == 0 then StripZeros(s[1..]) else s
  }

  function Power256(k: nat): (r: nat)
    ensures r > 0
  {
    if k == 0 then 1 else 256 * Power256(k - 1)
  }

  lemma {:induction false} FromMinimal(n: nat)
    ensures FromBytes(Minimal(n)) == n
  {
    if n != 0 {
      FromMinimal(n / 256);
      var m := Minimal(n / 256);
      assert Minimal(n)[..|Minimal(n)| - 1] == m;
    }
  }

  lemma {:induction false} MinimalSize(n: nat, k: nat)
    ensures |Minimal(n)| <= k <==> n < Power256(k)
    decreases k
  {
    if n != 0 && k != 0 {
      MinimalSize(n / 256, k - 1);
    }
  }

  lemma {:induction false} StripAppend(a: seq<byte>, b: byte)
    ensures StripZeros(a + [b]) == if StripZeros(a) == [] then (if b == 0 then [] else [b]) else StripZeros(a) + [b]
  {
    if a == [] {
      assert [b][1..] == [];
      assert a + [b] == [b];
    } else if a[0] == 0 {
      assert (a + [b])[1..] == a[1..] + [b];
      StripAppend(a[1..], b);
    }
  }

  /** Dropping the leading zeros of the fixed-size form gives the shortest form. */
  lemma {:induction false} StrippedIsMinimal(n: nat, k: nat)
    requires n < Power256(k)
    ensures StripZeros(ToBytes(n, k)) == Minimal(n)
    decreases k
  {
    if k != 0 {
      StrippedIsMinimal(n / 256, k - 1);
      StripAppend(ToBytes(n / 256, k - 1), n % 256);
    }
  }

  function LengthOctets(n: nat): seq<byte>
    requires n < USIZE
  {
    if n <= 0x7f then [n]
    else
      LongLength(n);
      [0x80 + |Minimal(n)|] + Minimal(n)
  }

  lemma LongLength(n: nat)
    requires 0x7f < n < USIZE
    ensures 1 <= |Minimal(n)| <= 8 && (|Minimal(n)| <= 4 <==> n < U32)
  {
    assert Power256(1) == 256 && Power256(2) == 0x1_0000 && Power256(3) == 0x100_0000 && Power256(4) == U32;
    assert Power256(5) == 256 * U32 && Power256(6) == 0x1_0000 * U32 && Power256(7) == 0x100_0000 * U32;
    assert Power256(8) == USIZE;
    MinimalSize(n, 8);
    MinimalSize(n, 4);
    MinimalSize(n, 0);
  }

  function Wrap(tag: byte, content: seq<byte>): seq<byte>
    requires |content| < USIZE
  {
    [tag] + LengthOctets(|content|) + content
  }

  method LeadingZeros(size: seq<byte>) returns (leading: nat)
    ensures leading <= |size| && size[leading..] == StripZeros(size)
  {
    leading := 0;
    while leading < |size| && size[leading] == 0
      invariant 0 <= leading <= |size|
      invariant StripZeros(size[leading..]) == StripZeros(size)
    {
      assert size[leading..][0] == 0 && size[leading..][1..] == size[leading + 1..];
      leading := leading + 1;
    }
  }

  method Asn1Wrap(tag: byte, bytes: seq<byte>) returns (ret: seq<byte>)
    requires |bytes| < USIZE
    ensures ret == Wrap(tag, bytes)
  {
    var len := |bytes|;
    if len <= 0x7f {
      ret := [tag];
      ret := ret + [len];
      ret := ret + bytes;
    } else {
      var size := ToBytes(len, 8);
      LongLength(len);
      MinimalSize(len, 8);
      StrippedIsMinimal(len, 8);
      var leading := LeadingZeros(size);
      var encoded := 8 - leading;
      ret := [tag];
      ret := ret + [0x80 + encoded];
      ret := ret + size[leading..];
      ret := ret + bytes;
    }
  }

  // ---- reading ----

  datatype Tlv = Malformed | Element(tag: byte, content: seq<byte>, used: nat)

  /** One element off the front of `b`. */
  function ReadFront(b: seq<byte>): (r: Tlv)
    ensures r.Element? ==> 2 <= r.used <= |b|
  {
    if 2 > |b| then Malformed
    else
      var first := b[1];
      if first < 0x80 then Cut(b, 2, first)
      else
        var n := first - 0x80;
        if n == 0 || n > 4 || 2 + n > |b| then Malformed else Cut(b, 2 + n, FromBytes(b[2..2 + n]))
  }

  function Cut(b: seq<byte>, hdr: nat, len: nat): (r: Tlv)
    requires 2 <= hdr <= |b|
    ensures r.Element? ==> 2 <= r.used <= |b|
  {
    if hdr + len > |b| then Malformed else Element(b[0], b[hdr..hdr + len], hdr + len)
  }

  lemma SliceOfRest(buf: seq<byte>, pos: nat, i: nat, j: nat)
    requires i <= j && pos + j <= |buf|
    ensures buf[pos..][i..j] == buf[pos + i..pos + j]
  {
  }

  class DerReader {
    const buf: seq<byte>
    var pos: nat

    constructor (buf: seq<byte>)
      ensures Valid() && this.buf == buf && pos == 0
    {
      this.buf, pos := buf, 0;
    }

    ghost predicate Valid()
      reads this
    {
      pos <= |buf|
    }

    /** Moves past the element it returns, and stays put when there is none. */
    method ReadTlv() returns (r: Option<(byte, seq<byte>)>)
      requires Valid()
      modifies this`pos
      ensures Valid()
      ensures
        match ReadFront(buf[old(pos)..])
        case Malformed => r.None? && pos == old(pos)
        case Element(tag, content, used) => r == Some((tag, content)) && pos == old(pos) + used
    {
      ghost var b := buf[pos..];
      if pos + 2 > |buf| {
        return None;
      }
      var tag := buf[pos];
      var len: nat := buf[pos + 1];
      var hdr := 2;
      if len >= 0x80 {
        var n := len - 0x80;
        if n == 0 || n > 4 || pos + 2 + n > |buf| {
          return None;
        }
        len := 0;
        for i := 0 to n
          invariant len == FromBytes(b[2..2 + i])
        {
          assert b[2..2 + i + 1][..i] == b[2..2 + i];
          len := len * 256 + buf[pos + 2 + i];
        }
        hdr := hdr + n;
      }
      if pos + hdr + len > |buf| {
        return None;
      }
      SliceOfRest(buf, pos, hdr, hdr + len);
      r := Some((tag, buf[pos + hdr..pos + hdr + len]));
      pos := pos + hdr + len;
    }
  }

  lemma ReadLong(tag: byte, size: seq<byte>, content: seq<byte>, after: seq<byte>)
    requires 1 <= |size| <= 8 && FromBytes(size) == |content|
    ensures
      var wrapped := [tag] + ([0x80 + |size|] + size) + content;
      ReadFront(wrapped + after) == if |size| <= 4 then Element(tag, content, |wrapped|) else Malformed
  {
    var k, n := |size|, |content|;
    var b := [tag] + ([0x80 + k] + size) + content + after;
    assert b[0] == tag && b[1] == 0x80 + k;
    assert b[2..2 + k] == size;
    assert b[2 + k..2 + k + n] == content;
  }

  /** Reading a wrapped element returns its tag and content and stops just past it, whatever comes
      after, for content shorter than 2^32 bytes; longer content is refused. */
  lemma ReadWrapped(tag: byte, content: seq<byte>, after: seq<byte>)
    requires |content| < USIZE
    ensures ReadFront(Wrap(tag, content) + after) ==
            if |content| < U32 then Element(tag, content, |Wrap(tag, content)|) else Malformed
  {
    var n := |content|;
    if n <= 0x7f {
      var b := Wrap(tag, content) + after;
      assert b[0] == tag && b[1] == n && b[2..2 + n] == content;
    } else {
      LongLength(n);
      FromMinimal(n);
      ReadLong(tag, Minimal(n), content, after);
    }
  }

  // ---- certificates ----

  /** The signature value, at the front of what follows the algorithm. */
  function ParseSignature(rest: seq<byte>, tbs: seq<byte>): Option<(seq<byte>, seq<byte>)> {
    var sig := ReadFront(rest);
    if sig.Malformed? || sig.tag != BIT_STRING || sig.content == [] || sig.content[0] != 0 then None
    else Some((tbs, sig.content[1..]))
  }

  function ParseAlgorithm(rest: seq<byte>, tbs: seq<byte>): Option<(seq<byte>, seq<byte>)> {
    var alg := ReadFront(rest);
    if alg.Malformed? || alg.tag != SEQUENCE then None else ParseSignature(rest[alg.used..], tbs)
  }

  function ParseBody(body: seq<byte>): Option<(seq<byte>, seq<byte>)> {
    var tbs := ReadFront(body);
    if tbs.Malformed? || tbs.tag != SEQUENCE then None else ParseAlgorithm(body[tbs.used..], tbs.content)
  }

  /** The to-be-signed part and the signature of a certificate. */
  function ParseCertificate(der: seq<byte>): Option<(seq<byte>, seq<byte>)> {
    var outer := ReadFront(der);
    if outer.Malformed? || outer.tag != SEQUENCE then None else ParseBody(outer.content)
  }

  predicate Addressable(tbs: seq<byte>, alg: seq<byte>, sig: seq<byte>) {
    |tbs| + |alg| + |sig| < USIZE - 64
  }

  function CertificateBody(tbs: seq<byte>, alg: seq<byte>, sig: seq<byte>): (body: seq<byte>)
    requires Addressable(tbs, alg, sig)
    ensures |tbs| + |alg| + |sig| + 1 < |body| < USIZE
  {
    WrapSize(SEQUENCE, tbs);
    WrapSize(SEQUENCE, alg);
    WrapSize(BIT_STRING, [0] + sig);
    Wrap(SEQUENCE, tbs) + (Wrap(SEQUENCE, alg) + Wrap(BIT_STRING, [0] + sig))
  }

  lemma WrapSize(tag: byte, content: seq<byte>)
    requires |content| < USIZE
    ensures |content| + 2 <= |Wrap(tag, content)| <= |content| + 10
  {
    if |content| > 0x7f {
      LongLength(|content|);
    }
  }

  lemma SignatureStep(tbs: seq<byte>, sig: seq<byte>)
    requires |sig| + 1 < U32
    ensures ParseSignature(Wrap(BIT_STRING, [0] + sig), tbs) == Some((tbs, sig))
  {
    var w := Wrap(BIT_STRING, [0] + sig);
    ReadWrapped(BIT_STRING, [0] + sig, []);
    assert w + [] == w;
    assert ([0] + sig)[1..] == sig;
  }

  lemma AlgorithmStep(alg: seq<byte>, after: seq<byte>, tbs: seq<byte>)
    requires |alg| < U32
    ensures ParseAlgorithm(Wrap(SEQUENCE, alg) + after, tbs) == ParseSignature(after, tbs)
  {
    ReadWrapped(SEQUENCE, alg, after);
    assert (Wrap(SEQUENCE, alg) + after)[|Wrap(SEQUENCE, alg)|..] == after;
  }

  lemma BodyStep(tbs: seq<byte>, after: seq<byte>)
    requires |tbs| < U32
    ensures ParseBody(Wrap(SEQUENCE, tbs) + after) == ParseAlgorithm(after, tbs)
  {
    ReadWrapped(SEQUENCE, tbs, after);
    assert (Wrap(SEQUENCE, tbs) + after)[|Wrap(SEQUENCE, tbs)|..] == after;
  }

  lemma OuterStep(body: seq<byte>, after: seq<byte>)
    requires |body| < USIZE
    ensures ParseCertificate(Wrap(SEQUENCE, body) + after) == if |body| < U32 then ParseBody(body) else None
  {
    ReadWrapped(SEQUENCE, body, after);
  }

  /** Parsing an assembled certificate recovers its to-be-signed part and its signature, whatever
      follows it, exactly when its body is shorter than 2^32 bytes. */
  lemma ParseAssembled(tbs: seq<byte>, alg: seq<byte>, sig: seq<byte>, after: seq<byte>)
    requires Addressable(tbs, alg, sig)
    ensures
      var body := CertificateBody(tbs, alg, sig);
      ParseCertificate(Wrap(SEQUENCE, body) + after) == if |body| < U32 then Some((tbs, sig)) else None
  {
    var body := CertificateBody(tbs, alg, sig);
    OuterStep(body, after);
    if |body| < U32 {
      BodyStep(tbs, Wrap(SEQUENCE, alg) + Wrap(BIT_STRING, [0] + sig));
      AlgorithmStep(alg, Wrap(BIT_STRING, [0] + sig), tbs);
      SignatureStep(tbs, sig);
    }
  }

  // ---- the REALITY check ----

  const ALGORITHM_ID: seq<byte> := [0x30, 0x05, 0x06, 0x03, 0x2b, 0x65, 0x70]
  const SPKI_PREFIX: seq<byte> := [0x30, 0x2a, 0x30, 0x05, 0x06, 0x03, 0x2b, 0x65, 0x70]

  /** `tail_check`: the last 35 bytes are a BIT STRING holding a 32-byte key. */
  function TailKey(body: seq<byte>): Option<seq<byte>>
    requires |body| >= 35
  {
    var tail := body[|body| - 35..];
    if tail[0] != 0x03 || tail[1] != 33 || tail[2] != 0 then None else Some(tail[3..35])
  }

  function ParseSpki(spki: seq<byte>): Option<seq<byte>> {
    var outer := ReadFront(spki);
    if outer.Malformed? || outer.tag != SEQUENCE then None
    else if !(ALGORITHM_ID <= outer.content) then None
    else if |outer.content| < 35 then None
    else TailKey(outer.content)
  }

  /** The first place where the prefix stands with three more bytes behind it. */
  function FindSpki(tbs: seq<byte>): Option<nat>
    decreases |tbs|
  {
    if |tbs| < |SPKI_PREFIX| + 3 then None
    else if SPKI_PREFIX <= tbs then Some(0)
    else match FindSpki(tbs[1..])
      case None => None
      case Some(k) => Some(k + 1)
  }

  function VerifyEndEntity(hmac: seq<byte> -> seq<byte>, der: seq<byte>): bool {
    match ParseCertificate(der)
    case None => false
    case Some((tbs, signature)) => KeyIn(tbs).Some? && hmac(KeyIn(tbs).value) == signature
  }

  predicate PrefixAt(tbs: seq<byte>, k: nat) {
    k + |SPKI_PREFIX| + 3 <= |tbs| && SPKI_PREFIX <= tbs[k..]
  }

  lemma PrefixShift(tbs: seq<byte>, k: nat)
    requires tbs != []
    ensures PrefixAt(tbs, k + 1) <==> PrefixAt(tbs[1..], k)
  {
    if k + 1 <= |tbs| {
      assert tbs[k + 1..] == tbs[1..][k..];
    }
  }

  /** The search finds the first place, and reports none only when there is none. */
  lemma {:induction false} FoundSpki(tbs: seq<byte>)
    ensures FindSpki(tbs).Some? ==> PrefixAt(tbs, FindSpki(tbs).value)
    ensures forall k: nat :: (FindSpki(tbs).Some? ==> k < FindSpki(tbs).value) ==> !PrefixAt(tbs, k)
    decreases |tbs|
  {
    if |tbs| >= |SPKI_PREFIX| + 3 {
      assert tbs[0..] == tbs;
      if !(SPKI_PREFIX <= tbs) {
        FoundSpki(tbs[1..]);
        forall k: nat
          ensures PrefixAt(tbs, k + 1) <==> PrefixAt(tbs[1..], k)
        {
          PrefixShift(tbs, k);
        }
        forall k: nat | FindSpki(tbs).Some? ==> k < FindSpki(tbs).value
          ensures !PrefixAt(tbs, k)
        {
          if k > 0 {
            assert !PrefixAt(tbs[1..], k - 1);
            PrefixShift(tbs, k - 1);
          }
        }
      }
    }
  }

  /** Behind the prefix the parser accepts exactly a 33-byte BIT STRING, and returns the 32 bytes that
      follow its header. */
  lemma SpkiKey(s: seq<byte>)
    requires SPKI_PREFIX <= s
    ensures ParseSpki(s) ==
            if |s| >= 44 && s[9] == 0x03 && s[10] == 33 && s[11] == 0 then Some(s[12..44]) else None
  {
    assert forall i :: 0 <= i < 9 ==> s[i] == SPKI_PREFIX[i];
    assert s[0] == 0x30 && s[1] == 0x2a;
    if |s| >= 44 {
      var body := s[2..44];
      assert ReadFront(s) == Element(SEQUENCE, body, 44);
      assert body[..7] == s[2..9] == SPKI_PREFIX[2..] == ALGORITHM_ID;
      assert body[|body| - 35..] == s[9..44];
      assert s[9..44][3..35] == s[12..44];
    }
  }

  /** What the key found in a to-be-signed part is. */
  function KeyIn(tbs: seq<byte>): Option<seq<byte>> {
    match FindSpki(tbs)
    case None => None
    case Some(at) => if at <= |tbs| then ParseSpki(tbs[at..]) else None
  }

  lemma SpkiAt(tbs: seq<byte>, at: nat)
    requires PrefixAt(tbs, at)
    ensures at + 12 <= |tbs|
    ensures ParseSpki(tbs[at..]) ==
            if at + 44 <= |tbs| && tbs[at + 9] == 0x03 && tbs[at + 10] == 33 && tbs[at + 11] == 0
            then Some(tbs[at + 12..at + 44]) else None
  {
    var s := tbs[at..];
    SpkiKey(s);
    if |s| >= 44 {
      assert s[12..44] == tbs[at + 12..at + 44];
    }
  }

  /** The key of a to-be-signed part is read behind the first prefix in it; without a prefix there is none. */
  lemma KeyInMeaning(tbs: seq<byte>)
    ensures KeyIn(tbs).Some? ==> exists k: nat :: PrefixAt(tbs, k)
    ensures forall at: nat :: PrefixAt(tbs, at) && (forall k: nat :: k < at ==> !PrefixAt(tbs, k)) ==>
              && at + 12 <= |tbs|
              && KeyIn(tbs) ==
                 if at + 44 <= |tbs| && tbs[at + 9] == 0x03 && tbs[at + 10] == 33 && tbs[at + 11] == 0
                 then Some(tbs[at + 12..at + 44]) else None
  {
    FoundSpki(tbs);
    if FindSpki(tbs).Some? {
      assert PrefixAt(tbs, FindSpki(tbs).value);
    }
    forall at: nat | PrefixAt(tbs, at) && forall k: nat :: k < at ==> !PrefixAt(tbs, k)
      ensures at + 12 <= |tbs|
      ensures KeyIn(tbs) ==
              if at + 44 <= |tbs| && tbs[at + 9] == 0x03 && tbs[at + 10] == 33 && tbs[at + 11] == 0
              then Some(tbs[at + 12..at + 44]) else None
    {
      assert FindSpki(tbs) == Some(at);
      SpkiAt(tbs, at);
    }
  }

  // ---- exactly which certificates are accepted ----

  /** The length octets the reader takes for a length: one byte below 128, or a count of one to four bytes and
      those bytes, leading zeros allowed. */
  predicate LengthForm(l: seq<byte>, n: nat) {
    || (|l| == 1 && l[0] < 128 && l[0] == n)
    || (2 <= |l| <= 5 && l[0] == 127 + |l| && FromBytes(l[1..]) == n)
  }

  /** `b` is an element with this tag and content, followed by `rest`. */
  ghost predicate Encodes(b: seq<byte>, tag: byte, content: seq<byte>, rest: seq<byte>) {
    exists l :: LengthForm(l, |content|) && b == [tag] + l + content + rest
  }

  lemma EncodedIsRead(b: seq<byte>, tag: byte, l: seq<byte>, content: seq<byte>, rest: seq<byte>)
    requires LengthForm(l, |content|) && b == [tag] + l + content + rest
    ensures ReadFront(b) == Element(tag, content, 1 + |l| + |content|) && b[1 + |l| + |content|..] == rest
  {
    var n := |content|;
    assert b[0] == tag && b[1] == l[0];
    assert b[1 + |l|..1 + |l| + n] == content;
    if |l| > 1 {
      assert b[2..2 + (|l| - 1)] == l[1..];
    }
  }

  lemma ReadIsEncoded(b: seq<byte>)
    requires ReadFront(b).Element?
    ensures
      var e := ReadFront(b);
      Encodes(b, e.tag, e.content, b[e.used..])
  {
    var e := ReadFront(b);
    var hdr := if b[1] < 0x80 then 2 else 2 + b[1] - 0x80;
    var l := b[1..hdr];
    if b[1] >= 0x80 {
      assert l[1..] == b[2..hdr];
    }
    FrontParts(b, e.tag, l, e.content, e.used);
    assert LengthForm(l, |e.content|) && b == [e.tag] + l + e.content + b[e.used..];
  }

  lemma FrontParts(b: seq<byte>, tag: byte, l: seq<byte>, content: seq<byte>, used: nat)
    requires b != [] && b[0] == tag && 1 + |l| + |content| == used <= |b|
    requires l == b[1..1 + |l|] && content == b[1 + |l|..used]
    ensures b == [tag] + l + content + b[used..]
  {
  }

  /** The reader returns an element exactly when one stands at the front. */
  lemma ReadIff(b: seq<byte>, tag: byte, content: seq<byte>, rest: seq<byte>)
    ensures Encodes(b, tag, content, rest) <==>
            var e := ReadFront(b);
            e.Element? && e.tag == tag && e.content == content && b[e.used..] == rest
  {
    if Encodes(b, tag, content, rest) {
      var l :| LengthForm(l, |content|) && b == [tag] + l + content + rest;
      EncodedIsRead(b, tag, l, content, rest);
    }
    if ReadFront(b).Element? {
      ReadIsEncoded(b);
    }
  }

  /** The tail of a certificate body: any algorithm SEQUENCE, then the signature BIT STRING. */
  ghost predicate SignedBy(b: seq<byte>, sig: seq<byte>) {
    exists alg, tail, rest :: Encodes(b, 0x30, alg, tail) && Encodes(tail, 0x03, [0] + sig, rest)
  }

  /** A SEQUENCE of the to-be-signed SEQUENCE, an algorithm SEQUENCE and a BIT STRING without unused bits. */
  ghost predicate Certificate(der: seq<byte>, tbs: seq<byte>, sig: seq<byte>) {
    exists body, after, tail :: Encodes(der, 0x30, body, after) && Encodes(body, 0x30, tbs, tail) && SignedBy(tail, sig)
  }

  lemma SignatureIff(b: seq<byte>, tbs: seq<byte>, sig: seq<byte>)
    ensures ParseSignature(b, tbs) == Some((tbs, sig)) <==> exists rest :: Encodes(b, 0x03, [0] + sig, rest)
  {
    var e := ReadFront(b);
    if ParseSignature(b, tbs) == Some((tbs, sig)) {
      assert e.content == [0] + sig;
      ReadIff(b, 0x03, [0] + sig, b[e.used..]);
    }
    forall rest | Encodes(b, 0x03, [0] + sig, rest)
      ensures ParseSignature(b, tbs) == Some((tbs, sig))
    {
      ReadIff(b, 0x03, [0] + sig, rest);
      assert ([0] + sig)[1..] == sig;
    }
  }

  lemma AlgorithmIff(b: seq<byte>, tbs: seq<byte>, sig: seq<byte>)
    ensures ParseAlgorithm(b, tbs) == Some((tbs, sig)) <==> SignedBy(b, sig)
  {
    var e := ReadFront(b);
    if ParseAlgorithm(b, tbs) == Some((tbs, sig)) {
      ReadIff(b, 0x30, e.content, b[e.used..]);
      SignatureIff(b[e.used..], tbs, sig);
      var rest :| Encodes(b[e.used..], 0x03, [0] + sig, rest);
    }
    if SignedBy(b, sig) {
      var alg, tail, rest :| Encodes(b, 0x30, alg, tail) && Encodes(tail, 0x03, [0] + sig, rest);
      ReadIff(b, 0x30, alg, tail);
      SignatureIff(tail, tbs, sig);
    }
  }

  lemma ParsedTbs(b: seq<byte>, tbs: seq<byte>)
    ensures ParseAlgorithm(b, tbs).Some? ==> ParseAlgorithm(b, tbs).value.0 == tbs
  {
  }

  lemma BodyIff(body: seq<byte>, tbs: seq<byte>, sig: seq<byte>)
    ensures ParseBody(body) == Some((tbs, sig)) <==> exists tail :: Encodes(body, 0x30, tbs, tail) && SignedBy(tail, sig)
  {
    var e := ReadFront(body);
    if ParseBody(body) == Some((tbs, sig)) {
      ParsedTbs(body[e.used..], e.content);
      ReadIff(body, 0x30, tbs, body[e.used..]);
      AlgorithmIff(body[e.used..], tbs, sig);
    }
    forall tail | Encodes(body, 0x30, tbs, tail) && SignedBy(tail, sig)
      ensures ParseBody(body) == Some((tbs, sig))
    {
      ReadIff(body, 0x30, tbs, tail);
      AlgorithmIff(tail, tbs, sig);
    }
  }

  /** The parser accepts exactly the certificates of this shape, and finds their parts. */
  lemma ParsedIff(der: seq<byte>, tbs: seq<byte>, sig: seq<byte>)
    ensures ParseCertificate(der) == Some((tbs, sig)) <==> Certificate(der, tbs, sig)
  {
    var e := ReadFront(der);
    if ParseCertificate(der) == Some((tbs, sig)) {
      ReadIff(der, 0x30, e.content, der[e.used..]);
      BodyIff(e.content, tbs, sig);
      var tail :| Encodes(e.content, 0x30, tbs, tail) && SignedBy(tail, sig);
    }
    if Certificate(der, tbs, sig) {
      var body, after, tail :| Encodes(der, 0x30, body, after) && Encodes(body, 0x30, tbs, tail) && SignedBy(tail, sig);
      ReadIff(der, 0x30, body, after);
      BodyIff(body, tbs, sig);
    }
  }

  /** The first Ed25519 key record of a to-be-signed part stands at `at` and holds `key`. */
  ghost predicate HoldsKey(tbs: seq<byte>, at: nat, key: seq<byte>) {
    && PrefixAt(tbs, at) && (forall k: nat :: k < at ==> !PrefixAt(tbs, k))
    && at + 44 <= |tbs| && tbs[at + 9..at + 12] == [0x03, 0x21, 0x00] && tbs[at + 12..at + 44] == key
  }

  lemma KeyFound(tbs: seq<byte>, at: nat, key: seq<byte>)
    requires HoldsKey(tbs, at, key)
    ensures KeyIn(tbs) == Some(key)
  {
    KeyInMeaning(tbs);
    var t := tbs[at + 9..at + 12];
    assert t[0] == tbs[at + 9] && t[1] == tbs[at + 10] && t[2] == tbs[at + 11];
  }

  lemma KeyHeld(tbs: seq<byte>) returns (at: nat)
    requires KeyIn(tbs).Some?
    ensures HoldsKey(tbs, at, KeyIn(tbs).value)
  {
    FoundSpki(tbs);
    at := FindSpki(tbs).value;
    SpkiAt(tbs, at);
    assert tbs[at + 9..at + 12] == [0x03, 0x21, 0x00];
  }

  lemma KeyIff(tbs: seq<byte>, key: seq<byte>)
    ensures KeyIn(tbs) == Some(key) <==> exists at: nat :: HoldsKey(tbs, at, key)
  {
    if KeyIn(tbs) == Some(key) {
      var at := KeyHeld(tbs);
    }
    forall at: nat | HoldsKey(tbs, at, key)
      ensures KeyIn(tbs) == Some(key)
    {
      KeyFound(tbs, at, key);
    }
  }

  /** A certificate is accepted exactly when it has that shape, its to-be-signed part holds an Ed25519 key, and
      its signature is the keyed hash of that key. Everything else is refused. */
  lemma AcceptedIff(hmac: seq<byte> -> seq<byte>, der: seq<byte>)
    ensures VerifyEndEntity(hmac, der) <==>
            exists tbs, sig, at: nat, key ::
              Certificate(der, tbs, sig) && HoldsKey(tbs, at, key) && hmac(key) == sig
  {
    if VerifyEndEntity(hmac, der) {
      var tbs, sig := ParseCertificate(der).value.0, ParseCertificate(der).value.1;
      var key := KeyIn(tbs).value;
      ParsedIff(der, tbs, sig);
      KeyIff(tbs, key);
      var at: nat :| HoldsKey(tbs, at, key);
      assert Certificate(der, tbs, sig) && HoldsKey(tbs, at, key) && hmac(key) == sig;
    }
    forall tbs, sig, at: nat, key | Certificate(der, tbs, sig) && HoldsKey(tbs, at, key) && hmac(key) == sig
      ensures VerifyEndEntity(hmac, der)
    {
      ParsedIff(der, tbs, sig);
      KeyIff(tbs, key);
    }
  }

  /** An assembled certificate without an Ed25519 key record is refused, whatever its signature. */
  lemma KeylessRefused(hmac: seq<byte> -> seq<byte>, tbs: seq<byte>, alg: seq<byte>, sig: seq<byte>)
    requires Addressable(tbs, alg, sig) && forall k: nat :: !PrefixAt(tbs, k)
    ensures !VerifyEndEntity(hmac, Wrap(SEQUENCE, CertificateBody(tbs, alg, sig)))
  {
    var der := Wrap(SEQUENCE, CertificateBody(tbs, alg, sig));
    ParseAssembled(tbs, alg, sig, []);
    assert der + [] == der;
    KeyInMeaning(tbs);
  }

  /** An assembled certificate whose to-be-signed part carries the key is accepted exactly when it is
      signed with the keyed hash of that key. */
  lemma AssembledAcceptedIff(hmac: seq<byte> -> seq<byte>, tbs: seq<byte>, alg: seq<byte>, sig: seq<byte>, key: seq<byte>)
    requires Addressable(tbs, alg, sig) && |CertificateBody(tbs, alg, sig)| < U32 && KeyIn(tbs) == Some(key)
    ensures VerifyEndEntity(hmac, Wrap(SEQUENCE, CertificateBody(tbs, alg, sig))) <==> hmac(key) == sig
  {
    ParseAssembled(tbs, alg, sig, []);
    var der := Wrap(SEQUENCE, CertificateBody(tbs, alg, sig));
    assert der + [] == der;
  }

  /** The octets a wrapped element has on the wire, by the size of its content. */
  lemma WrapOctets(tag: byte, content: seq<byte>)
    requires |content| < 0x1_0000
    ensures
      var n := |content|;
      Wrap(tag, content) ==
      if n < 128 then [tag, n] + content
      else if n < 256 then [tag, 0x81, n] + content
      else [tag, 0x82, n / 256, n % 256] + content
  {
    var n := |content|;
    if n >= 256 {
      assert Minimal(n / 256) == Minimal(n / 256 / 256) + [n / 256 % 256];
      assert Minimal(n) == [n / 256, n % 256];
    } else if n >= 128 {
      assert Minimal(n) == [n];
    }
  }
}
