/** TLS records on the wire: the 5-byte header, the reader that tells an incomplete record from an
    invalid one, and what is recovered from a stream or from any cut of it. */
module Records {
  import opened Prelude

  const CHANGE_CIPHER_SPEC: byte := 0x14
  const ALERT: byte := 0x15
  const HANDSHAKE: byte := 0x16
  const APPLICATION_DATA: byte := 0x17
  const HEARTBEAT: byte := 0x18

  const TLS12: u16 := 0x0303
  const TLS13: u16 := 0x0304

  const HEADER_SIZE := 5
  const MAX_PAYLOAD := 16384 + 2048

  type u16 = x: int | 0 <= x < 0x1_0000

  datatype Opaque = Opaque(typ: byte, version: u16, payload: seq<byte>)

  datatype Plain = Plain(typ: byte, version: u16, payload: seq<byte>)

  function U16(v: int): seq<byte>
    requires 0 <= v < 0x1_0000
  {
    [v / 256, v % 256]
  }

  function FromU16(hi: byte, lo: byte): u16 {
    var h: int := hi;
    h * 256 + lo
  }

  /** The length field is the payload length truncated to 16 bits. */
  function Header(m: Opaque): (h: seq<byte>)
    ensures |h| == HEADER_SIZE
  {
    [m.typ] + U16(m.version) + U16(|m.payload| % 0x1_0000)
  }

  function Encode(m: Opaque): seq<byte> {
    Header(m) + m.payload
  }

  predicate KnownType(typ: byte) {
    CHANGE_CIPHER_SPEC <= typ <= HEARTBEAT
  }

  /** 0x03XX, or one of the other versions the enumeration names. */
  predicate AcceptedVersion(v: u16) {
    v / 256 == 3 || v in {0x0200, 0xFEFF, 0xFEFD, 0xFEFC}
  }

  datatype Frame = TooShort | Invalid | Record(record: Opaque, used: nat)

  /** `OpaqueMessage::read`. */
  function Read(b: seq<byte>): (f: Frame)
    ensures f.Record? ==> HEADER_SIZE <= f.used <= |b|
  {
    if |b| < 1 then TooShort
    else if !KnownType(b[0]) then Invalid
    else if |b| < 3 then TooShort
    else
      var version := FromU16(b[1], b[2]);
      if !AcceptedVersion(version) then Invalid
      else if |b| < 5 then TooShort
      else
        var len := FromU16(b[3], b[4]);
        if b[0] != APPLICATION_DATA && len == 0 then Invalid
        else if len >= MAX_PAYLOAD then Invalid
        else if |b| < 5 + len then TooShort
        else Record(Opaque(b[0], version, b[5..5 + len]), 5 + len)
  }

  predicate WellFormed(m: Opaque) {
    && KnownType(m.typ) && AcceptedVersion(m.version)
    && |m.payload| < MAX_PAYLOAD
    && (m.typ == APPLICATION_DATA || m.payload != [])
  }

  lemma HeaderFields(m: Opaque)
    ensures
      var h := Header(m);
      && h[0] == m.typ && FromU16(h[1], h[2]) == m.version
      && FromU16(h[3], h[4]) == |m.payload| % 0x1_0000
  {
  }

  lemma EncodedFields(m: Opaque, rest: seq<byte>, b: seq<byte>)
    requires b == Encode(m) + rest
    ensures |b| == HEADER_SIZE + |m.payload| + |rest|
    ensures b[0] == m.typ && FromU16(b[1], b[2]) == m.version && FromU16(b[3], b[4]) == |m.payload| % 0x1_0000
    ensures b[5..5 + |m.payload|] == m.payload
  {
    HeaderFields(m);
    assert forall i :: 0 <= i < HEADER_SIZE ==> b[i] == Header(m)[i];
  }

  /** Reading back an encoded record returns it, whatever follows, exactly for the well-formed ones. */
  lemma ReadEncode(m: Opaque, rest: seq<byte>)
    ensures Read(Encode(m) + rest) == Record(m, HEADER_SIZE + |m.payload|) <==> WellFormed(m)
  {
    var b := Encode(m) + rest;
    EncodedFields(m, rest, b);
  }

  /** A header is invalid exactly when its type is not 20 to 24, its version is neither 3.x nor SSL 2 nor DTLS,
      or its length is zero for anything but application data or at least 18432; each as soon as the bytes
      are there. */
  lemma InvalidIff(b: seq<byte>)
    ensures
      var length: int := if |b| >= 5 then Big(b[3], b[4]) else 0;
      Read(b) == Invalid <==>
      || (|b| >= 1 && !(20 <= b[0] <= 24))
      || (|b| >= 3 && b[1] != 3 && !(b[1] == 2 && b[2] == 0) && !(b[1] == 254 && b[2] in {252, 253, 255}))
      || (|b| >= 5 && length == 0 && b[0] != 23)
      || (|b| >= 5 && length >= 18432)
  {
  }

  /** Two bytes, the more significant first. */
  function Big(hi: int, lo: int): int {
    hi * 256 + lo
  }

  /** A cut inside a well-formed record reads as incomplete, never as invalid. */
  lemma ReadCut(m: Opaque, cut: seq<byte>)
    requires WellFormed(m) && cut < Encode(m)
    ensures Read(cut) == TooShort
  {
    HeaderFields(m);
    assert forall i :: 0 <= i < HEADER_SIZE ==> Encode(m)[i] == Header(m)[i];
    assert |cut| < HEADER_SIZE + |m.payload|;
    assert forall i :: 0 <= i < |cut| ==> cut[i] == Encode(m)[i];
  }

  // ---- streams ----

  function EncodeAll(rs: seq<Opaque>): seq<byte> {
    if rs == [] then [] else Encode(rs[0]) + EncodeAll(rs[1..])
  }

  /** The records a reader takes off the front of a stream before it has to wait or give up. */
  function ParseAll(b: seq<byte>): seq<Opaque>
    decreases |b|
  {
    var f := Read(b);
    if f.Record? then [f.record] + ParseAll(b[f.used..]) else []
  }

  ghost predicate AllWellFormed(rs: seq<Opaque>) {
    forall i :: 0 <= i < |rs| ==> WellFormed(rs[i])
  }

  lemma {:induction false} EncodeAllAppend(a: seq<Opaque>, b: seq<Opaque>)
    ensures EncodeAll(a + b) == EncodeAll(a) + EncodeAll(b)
  {
    if a == [] {
      assert a + b == b;
    } else {
      assert (a + b)[1..] == a[1..] + b;
      EncodeAllAppend(a[1..], b);
    }
  }

  lemma EncodeAllPush(a: seq<Opaque>, m: Opaque)
    ensures EncodeAll(a + [m]) == EncodeAll(a) + Encode(m)
  {
    EncodeAllAppend(a, [m]);
    assert EncodeAll([m]) == Encode(m) + EncodeAll([m][1..]);
  }

  /** Any cut of the stream of well-formed records yields a prefix of them, and the whole stream
      yields all of them. */
  lemma {:induction false} ParseCut(rs: seq<Opaque>, k: nat)
    requires AllWellFormed(rs) && k <= |EncodeAll(rs)|
    ensures ParseAll(EncodeAll(rs)[..k]) <= rs
    ensures k == |EncodeAll(rs)| ==> ParseAll(EncodeAll(rs)[..k]) == rs
  {
    var all := EncodeAll(rs);
    if rs != [] {
      var m := rs[0];
      var rest := EncodeAll(rs[1..]);
      if k < |Encode(m)| {
        assert all[..k] == Encode(m)[..k];
        ReadCut(m, all[..k]);
      } else {
        var j := k - |Encode(m)|;
        assert all[..k] == Encode(m) + rest[..j];
        ReadEncode(m, rest[..j]);
        assert all[..k][|Encode(m)|..] == rest[..j];
        ParseCut(rs[1..], j);
        assert rs == [m] + rs[1..];
      }
    }
  }
}
