/** The record protection of both protocol versions, over any authenticated encryption, meets what delivery
    asks of a cipher. */
module RecordProtection {
  import opened Prelude
  import opened Records
  import opened RecordLayer
  import opened SendPath
  import opened SendStream
  import opened Delivery

  /** Encryption of bytes under the key of an epoch with a sequence number, and its inverse. */
  type Aead = (nat, nat, seq<byte>) -> seq<byte>

  type Unaead = (nat, nat, seq<byte>) -> Option<seq<byte>>

  /** Opening undoes sealing, and sealing adds at most `overhead` bytes and removes none. */
  ghost predicate Inverse(aead: Aead, unaead: Unaead, overhead: nat) {
    forall e: nat, n: nat, b {:trigger aead(e, n, b)} ::
      unaead(e, n, aead(e, n, b)) == Some(b) && |b| <= |aead(e, n, b)| <= |b| + overhead
  }

  // ---- TLS 1.3 ----

  /** The content type is the last plaintext byte; the outer type and version are constants. */
  function Tls13Seal(aead: Aead): Cipher {
    (e: nat, n: nat, m: Plain) => Opaque(APPLICATION_DATA, TLS12, aead(e, n, m.payload + [m.typ]))
  }

  /** Padding zeros are removed, and the last other byte is the type. */
  function Unpad(b: seq<byte>): Option<(byte, seq<byte>)> {
    if b == [] then None
    else if b[|b| - 1] == 0 then Unpad(b[..|b| - 1])
    else Some((b[|b| - 1], b[..|b| - 1]))
  }

  function Tls13Open(unaead: Unaead): Opener {
    (e: nat, n: nat, r: Opaque) =>
      var b := unaead(e, n, r.payload);
      if b.None? then DecryptError
      else if |b.value| > MAX_FRAGMENT_LEN + 1 then OtherError
      else
        var inner := Unpad(b.value);
        if inner.None? || |inner.value.1| > MAX_FRAGMENT_LEN then OtherError
        else Plaintext(Plain(inner.value.0, TLS13, inner.value.1))
  }

  lemma UnpadSealed(payload: seq<byte>, typ: byte)
    requires typ != 0
    ensures Unpad(payload + [typ]) == Some((typ, payload))
  {
    var b := payload + [typ];
    assert b[|b| - 1] == typ && b[..|b| - 1] == payload;
  }

  /** The version is lost, and yet everything delivery needs comes back. */
  lemma Tls13Matches(aead: Aead, unaead: Unaead)
    requires Inverse(aead, unaead, 2046)
    ensures Matches(Tls13Seal(aead), Tls13Open(unaead))
  {
    var seal, open := Tls13Seal(aead), Tls13Open(unaead);
    forall e: nat, n: nat, m: Plain | Sendable(m)
      ensures WellFormed(seal(e, n, m)) && open(e, n, seal(e, n, m)) == Plaintext(Bare(m))
    {
      var b := m.payload + [m.typ];
      assert unaead(e, n, aead(e, n, b)) == Some(b);
      UnpadSealed(m.payload, m.typ);
    }
  }

  // ---- TLS 1.2 ----

  /** Type and version stay in the record header. */
  function Tls12Seal(aead: Aead): Cipher {
    (e: nat, n: nat, m: Plain) => Opaque(m.typ, m.version, aead(e, n, m.payload))
  }

  function Tls12Open(unaead: Unaead): Opener {
    (e: nat, n: nat, r: Opaque) =>
      var b := unaead(e, n, r.payload);
      if b.None? then DecryptError
      else if |b.value| > MAX_FRAGMENT_LEN then OtherError
      else Plaintext(Plain(r.typ, r.version, b.value))
  }

  lemma Tls12Matches(aead: Aead, unaead: Unaead)
    requires Inverse(aead, unaead, 2047)
    ensures Matches(Tls12Seal(aead), Tls12Open(unaead))
  {
    var seal, open := Tls12Seal(aead), Tls12Open(unaead);
    forall e: nat, n: nat, m: Plain | Sendable(m)
      ensures WellFormed(seal(e, n, m)) && open(e, n, seal(e, n, m)) == Plaintext(m)
    {
      assert unaead(e, n, aead(e, n, m.payload)) == Some(m.payload);
    }
  }

  /** Some function meets the condition, with a 16-byte tag. */
  lemma InverseExists()
    ensures exists aead: Aead, unaead: Unaead :: Inverse(aead, unaead, 16)
  {
    var tag := seq(16, _ => 0);
    var aead: Aead := (e: nat, n: nat, b: seq<byte>) => b + tag;
    var unaead: Unaead := (e: nat, n: nat, c: seq<byte>) => if |c| < 16 then None else Some(c[..|c| - 16]);
    forall e: nat, n: nat, b
      ensures unaead(e, n, aead(e, n, b)) == Some(b) && |b| <= |aead(e, n, b)| <= |b| + 16
    {
      assert (b + tag)[..|b|] == b;
    }
    assert Inverse(aead, unaead, 16);
  }

  /** End-to-end delivery for TLS 1.3 records over any such encryption. */
  lemma Tls13Delivers(
      aead: Aead, unaead: Unaead, s: Sender, ops: seq<Op>, last: Sender, k: nat)
    requires Inverse(aead, unaead, 2046) && JustKeyed(s) && TrafficRun(Tls13Seal(aead), s, ops, last)
    requires |Stream(s)| + k <= |Stream(last)|
    ensures
      var start := |Stream(s)|;
      Delivers(Tls13Open(unaead), Peer(s.epoch, s.count), Stream(last)[start..start + k], last.accepted,
               start + k == |Stream(last)| && last.started)
  {
    Tls13Matches(aead, unaead);
    EndToEnd(Tls13Seal(aead), Tls13Open(unaead), s, ops, last, k);
  }
}
