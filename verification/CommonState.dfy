/** The connection object whose methods carry out the send path in place, proved against it. */
module CommonState {
  import opened Prelude
  import opened Records
  import opened Layer = RecordLayer
  import opened VecBuf
  import opened SendPath

  const DEFAULT_BUFFER_LIMIT: nat := 64 * 1024

  datatype UpdateRequest = NotRequested | Requested | Unknown

  /** The fatal alert with which an unknown key-update request is answered. */
  const ILLEGAL_PARAMETER := Plain(ALERT, TLS12, [2, 47])

  lemma FramedAppend(bytes: seq<byte>, m: Opaque)
    ensures bytes + Header(m) + m.payload == bytes + Encode(m)
  {
  }

  class CommonState {
    const layer: Layer.RecordLayer
    const plaintext: ChunkVecBuffer
    const tls: ChunkVecBuffer
    var started: bool
    var maxFrag: nat
    var queuedKeyUpdate: Option<seq<byte>>
    ghost var slot: Option<Sealed>
    ghost var accepted: seq<byte>
    ghost var log: seq<Sealed>
    ghost var sent: seq<Item>
    ghost var written: seq<byte>

    constructor (layer: Layer.RecordLayer)
      ensures Valid() && this.layer == layer && fresh(plaintext) && fresh(tls)
      ensures Now() == Sender(false, MAX_FRAGMENT_LEN, Some(DEFAULT_BUFFER_LIMIT), [], [], None,
                              layer.writeEpoch, layer.writeSeq, [], [], [], [])
    {
      this.layer := layer;
      plaintext := new ChunkVecBuffer(Some(DEFAULT_BUFFER_LIMIT));
      tls := new ChunkVecBuffer(Some(DEFAULT_BUFFER_LIMIT));
      started, maxFrag, queuedKeyUpdate := false, MAX_FRAGMENT_LEN, None;
      slot, accepted, log, sent, written := None, [], [], [], [];
    }

    ghost predicate Valid()
      reads this, layer, plaintext, tls
    {
      && plaintext != tls && plaintext.Valid() && tls.Valid() && plaintext.limit == tls.limit
      && 0 < maxFrag <= MAX_FRAGMENT_LEN
      && queuedKeyUpdate == if slot.Some? then Some(Encode(slot.value.record)) else None
    }

    ghost function Now(): Sender
      reads this, layer, plaintext, tls
    {
      Sender(started, maxFrag, tls.limit, plaintext.chunks, tls.Bytes(), slot,
             layer.writeEpoch, layer.writeSeq, accepted, log, sent, written)
    }

    ghost predicate Encrypting()
      reads this, layer
    {
      layer.encryptState.Active?
    }

    method QueueTlsMessage(m: Opaque, ghost item: Item)
      requires Valid() && item.Record() == m
      modifies this`sent, tls`chunks, tls`len
      ensures Valid() && Now() == Queue(old(Now()), item)
    {
      FramedAppend(tls.Bytes(), m);
      var _ := tls.Append(Header(m));
      var _ := tls.Append(m.payload);
      sent := sent + [item];
    }

    /** Away from the soft limit: there the source recurses without end. */
    method SendSingleFragment(m: Plain)
      requires Valid() && Encrypting() && layer.writeSeq != SEQ_SOFT_LIMIT
      modifies this`sent, this`log, layer`writeSeq, layer`uses, tls`chunks, tls`len
      ensures Valid() && Encrypting() && Now() == SendFragment(layer.seal, old(Now()), m)
    {
      if layer.writeSeq >= SEQ_HARD_LIMIT {
        return;
      }
      ghost var use := Use(layer.writeEpoch, layer.writeSeq);
      var em := layer.EncryptOutgoing(m);
      ghost var x := Sealed(use, m, em);
      log := log + [x];
      QueueTlsMessage(em, Protected(x));
    }

    /** `send_msg_encrypt`, and the loop of `send_appdata_encrypt`. */
    method SendMsgEncrypt(m: Plain)
      requires Valid() && Encrypting()
      requires !(layer.writeSeq <= SEQ_SOFT_LIMIT < layer.writeSeq + |Fragments(m, maxFrag)|)
      modifies this`sent, this`log, layer`writeSeq, layer`uses, tls`chunks, tls`len
      ensures Valid() && Encrypting()
      ensures Now() == SendFragments(layer.seal, old(Now()), Fragments(m, maxFrag))
    {
      var ms := Fragments(m, maxFrag);
      ghost var start := Now();
      var i := 0;
      while i < |ms|
        invariant 0 <= i <= |ms| && Valid() && Encrypting()
        invariant SendFragments(layer.seal, Now(), ms[i..]) == SendFragments(layer.seal, start, ms)
        invariant layer.writeSeq <= start.count + i
        invariant start.count <= layer.writeSeq
        invariant layer.writeSeq == start.count + i || layer.writeSeq >= SEQ_HARD_LIMIT
      {
        assert ms[i..][0] == ms[i] && ms[i..][1..] == ms[i + 1..];
        SendSingleFragment(ms[i]);
        i := i + 1;
      }
    }

    /** `send_msg` for a message that is not encrypted. */
    method SendMsgClear(m: Plain)
      requires Valid()
      modifies this`sent, tls`chunks, tls`len
      ensures Valid() && Now() == SendClear(old(Now()), Fragments(m, maxFrag))
    {
      var ms := Fragments(m, maxFrag);
      ghost var start := Now();
      var i := 0;
      while i < |ms|
        invariant 0 <= i <= |ms| && Valid()
        invariant SendClear(Now(), ms[i..]) == SendClear(start, ms)
      {
        assert ms[i..][0] == ms[i] && ms[i..][1..] == ms[i + 1..];
        var em := Opaque(ms[i].typ, ms[i].version, ms[i].payload);
        QueueTlsMessage(em, InClear(em));
        i := i + 1;
      }
    }

    method PerhapsWriteKeyUpdate()
      requires Valid()
      modifies this`queuedKeyUpdate, this`slot, this`sent, tls`chunks, tls`len
      ensures Valid() && Now() == WriteKeyUpdate(old(Now()))
    {
      if queuedKeyUpdate.Some? {
        var message := queuedKeyUpdate.value;
        queuedKeyUpdate := None;
        var _ := tls.Append(message);
        sent := sent + [Protected(slot.value)];
        slot := None;
      }
    }

    method SendSomePlaintext(data: seq<byte>) returns (n: nat)
      requires Valid() && (started ==> Encrypting())
      requires !(layer.writeSeq <= SEQ_SOFT_LIMIT < layer.writeSeq + Cost(Now(), WriteOp(data)))
      modifies this, layer`writeSeq, layer`uses, plaintext`chunks, plaintext`len, tls`chunks, tls`len
      ensures Valid() && (Now(), n) == Write(layer.seal, old(Now()), data)
      ensures layer.encryptState == old(layer.encryptState)
    {
      PerhapsWriteKeyUpdate();
      if !started {
        n := plaintext.AppendLimitedCopy(data);
      } else if data == [] {
        n := 0;
      } else {
        n := tls.ApplyLimit(|data|);
        SendMsgEncrypt(AppMessage(data[..n]));
      }
      accepted := accepted + data[..n];
    }

    /** `start_outgoing_traffic` with `flush_plaintext`. */
    method StartOutgoingTraffic()
      requires Valid() && Encrypting()
      requires layer.writeSeq + FlushCost(plaintext.chunks, maxFrag) <= SEQ_SOFT_LIMIT
      modifies this`started, this`sent, this`log, layer`writeSeq, layer`uses,
               plaintext`chunks, plaintext`len, tls`chunks, tls`len
      ensures Valid() && Encrypting() && Now() == StartTraffic(layer.seal, old(Now()))
    {
      started := true;
      ghost var start := Now();
      while true
        invariant Valid() && Encrypting()
        invariant layer.writeSeq + FlushCost(plaintext.chunks, maxFrag) <= SEQ_SOFT_LIMIT
        invariant Flush(layer.seal, Now()) == Flush(layer.seal, start)
        decreases |plaintext.chunks|
      {
        ghost var before := Now();
        var buf := plaintext.Pop();
        if buf.None? {
          NoneEmptyFlat(plaintext.chunks);
          break;
        }
        assert before.buffered[1..] == plaintext.chunks && before.buffered[0] == buf.value;
        SendMsgEncrypt(AppMessage(buf.value));
        FlushOneExact(layer.seal, before);
        assert Now() == FlushOne(layer.seal, before);
      }
    }

    /** `update_encrypter_and_notify`. */
    method UpdateEncrypterAndNotify()
      requires Valid() && Encrypting() && layer.writeSeq < SEQ_HARD_LIMIT
      modifies this`queuedKeyUpdate, this`slot, this`log, layer
      ensures Valid() && Encrypting() && Now() == UpdateKey(layer.seal, old(Now()))
    {
      ghost var use := Use(layer.writeEpoch, layer.writeSeq);
      var em := layer.EncryptOutgoing(KEY_UPDATE);
      ghost var x := Sealed(use, KEY_UPDATE, em);
      log := log + [x];
      queuedKeyUpdate := Some(Encode(em));
      slot := Some(x);
      layer.SetMessageEncrypter();
    }

    /** Answers a key-update request; an unknown one gets a fatal alert and no answer. */
    method ShouldUpdateKey(request: UpdateRequest) returns (r: Option<bool>)
      requires Valid()
      requires request.Unknown? && Encrypting() ==>
                 !(layer.writeSeq <= SEQ_SOFT_LIMIT < layer.writeSeq + |Fragments(ILLEGAL_PARAMETER, maxFrag)|)
      modifies this`sent, this`log, layer`writeSeq, layer`uses, tls`chunks, tls`len
      ensures Valid()
      ensures r == match request
                   case NotRequested => Some(false)
                   case Requested => Some(slot.None?)
                   case Unknown => None
      ensures Now() == if !request.Unknown? then old(Now())
                       else if old(Encrypting()) then
                         SendFragments(layer.seal, old(Now()), Fragments(ILLEGAL_PARAMETER, maxFrag))
                       else SendClear(old(Now()), Fragments(ILLEGAL_PARAMETER, maxFrag))
    {
      match request
      case NotRequested => r := Some(false);
      case Requested => r := Some(queuedKeyUpdate.None?);
      case Unknown =>
        if layer.encryptState.Active? {
          SendMsgEncrypt(ILLEGAL_PARAMETER);
        } else {
          SendMsgClear(ILLEGAL_PARAMETER);
        }
        r := None;
    }

    method SetBufferLimit(limit: Option<nat>)
      requires Valid()
      modifies plaintext`limit, tls`limit
      ensures Valid() && Now() == old(Now()).(limit := limit)
    {
      plaintext.SetLimit(limit);
      tls.SetLimit(limit);
    }

    /** One round of `write_vectored`, on the way to its end state. */
    method WriteNext(buf: seq<byte>, ghost bufs: seq<seq<byte>>, ghost rest: seq<seq<byte>>, ghost sz: nat,
                     ghost target: (Sender, nat))
      returns (n: nat)
      requires Valid() && (started ==> Encrypting())
      requires bufs != [] && buf == bufs[0] && rest == bufs[1..]
      requires VectorEnabled(layer.seal, Now(), bufs) && LeadsTo(layer.seal, Now(), bufs, sz, target)
      modifies this, layer`writeSeq, layer`uses, plaintext`chunks, plaintext`len, tls`chunks, tls`len
      ensures Valid() && (started ==> Encrypting())
      ensures VectorEnabled(layer.seal, Now(), rest) && LeadsTo(layer.seal, Now(), rest, sz + n, target)
    {
      ghost var before := Now();
      n := SendSomePlaintext(buf);
      VectorStep(layer.seal, before, bufs, rest, Now(), n, sz, target);
    }

    /** `write_vectored` adds up the counts of the single writes. */
    method WriteVectored(bufs: seq<seq<byte>>) returns (sz: nat)
      requires Valid() && (started ==> Encrypting()) && VectorEnabled(layer.seal, Now(), bufs)
      modifies this, layer`writeSeq, layer`uses, plaintext`chunks, plaintext`len, tls`chunks, tls`len
      ensures Valid() && (Now(), sz) == SendPath.WriteVectored(layer.seal, old(Now()), bufs)
    {
      sz := 0;
      ghost var target := SendPath.WriteVectored(layer.seal, Now(), bufs);
      var i := 0;
      assert bufs[0..] == bufs;
      while i < |bufs|
        invariant 0 <= i <= |bufs| && Valid() && (started ==> Encrypting())
        invariant VectorEnabled(layer.seal, Now(), bufs[i..])
        invariant LeadsTo(layer.seal, Now(), bufs[i..], sz, target)
      {
        assert bufs[i..][0] == bufs[i] && bufs[i..][1..] == bufs[i + 1..];
        var n := WriteNext(bufs[i], bufs[i..], bufs[i + 1..], sz, target);
        sz := sz + n;
        i := i + 1;
      }
    }

    /** `write_tls`; see WriteTo. */
    method WriteTls(accepts: Option<nat>) returns (used: Option<nat>)
      requires Valid()
      requires accepts.Some? ==> accepts.value <= |Flat(tls.chunks[..Min(MAX_SLICES, |tls.chunks|)])|
      modifies this`written, tls`chunks, tls`len
      ensures Valid() && Now() == Step(layer.seal, old(Now()), WriteTlsOp(if used.Some? then used.value else 0))
    {
      ghost var out: seq<byte>;
      used, out := tls.WriteTo(accepts);
      written := written + out;
      assert out == old(tls.Bytes())[..|out|];
    }
  }
}
