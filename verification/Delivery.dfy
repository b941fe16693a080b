/** End-to-end delivery: a peer that reads records off any cut of the outgoing stream, opens them with
    its own counters and follows key updates gets a prefix of the bytes the sender accepted. */
module Delivery {
  import opened Prelude
  import opened Records
  import opened RecordLayer
  import opened SendPath
  import opened SendStream
  import opened VecBuf

  /** The peer's key epoch and sequence number. */
  datatype Peer = Peer(epoch: nat, count: nat)

  /** A message up to its version field, which TLS 1.3 records do not carry. */
  function Bare(m: Plain): Plain {
    m.(version := TLS13)
  }

  function BareAll(ms: seq<Plain>): seq<Plain> {
    seq(|ms|, i requires 0 <= i < |ms| => Bare(ms[i]))
  }

  /** A key-update notice makes the peer install the next key; anything else advances its counter. */
  function PeerNext(p: Peer, m: Plain): Peer {
    if Bare(m) == KEY_UPDATE then Peer(p.epoch + 1, 0) else Peer(p.epoch, p.count + 1)
  }

  /** Whether every record opened, the peer's state after them, and the messages they held. */
  function PeerReceive(open: Opener, p: Peer, rs: seq<Opaque>): (bool, Peer, seq<Plain>)
    decreases |rs|
  {
    if rs == [] then (true, p, [])
    else
      match open(p.epoch, p.count, rs[0])
      case Plaintext(m) =>
        var (ok, q, ms) := PeerReceive(open, PeerNext(p, m), rs[1..]);
        (ok, q, [Bare(m)] + ms)
      case _ => (false, p, [])
  }

  /** What connections of this library encrypt: a known type, a current version, a legal size. */
  predicate Sendable(m: Plain) {
    KnownType(m.typ) && (m.version == TLS12 || m.version == TLS13) && 0 < |m.payload| <= MAX_FRAGMENT_LEN
  }

  /** Such messages become records well formed on the wire that open to their type and payload. */
  ghost predicate Matches(seal: Cipher, open: Opener) {
    forall e, n, m: Plain {:trigger seal(e, n, m)} :: Sendable(m) ==>
      WellFormed(seal(e, n, m)) &&
      var r := open(e, n, seal(e, n, m));
      r.Plaintext? && Bare(r.message) == Bare(m)
  }

  lemma {:induction false} PeerAppend(open: Opener, p: Peer, a: seq<Opaque>, b: seq<Opaque>)
    requires PeerReceive(open, p, a).0
    ensures
      var (_, q, ms) := PeerReceive(open, p, a);
      var (ok, q', ms') := PeerReceive(open, q, b);
      PeerReceive(open, p, a + b) == (ok, q', ms + ms')
    decreases |a|
  {
    if a == [] {
      assert a + b == b;
      assert [] + PeerReceive(open, p, b).2 == PeerReceive(open, p, b).2;
    } else {
      assert (a + b)[1..] == a[1..] + b;
      var m := open(p.epoch, p.count, a[0]).message;
      PeerAppend(open, PeerNext(p, m), a[1..], b);
      var (_, q, ms) := PeerReceive(open, PeerNext(p, m), a[1..]);
      var ms' := PeerReceive(open, q, b).2;
      assert [Bare(m)] + (ms + ms') == ([Bare(m)] + ms) + ms';
    }
  }

  lemma {:induction false} PeerPrefix(open: Opener, p: Peer, rs: seq<Opaque>, j: nat)
    requires PeerReceive(open, p, rs).0 && j <= |rs|
    ensures |PeerReceive(open, p, rs).2| == |rs|
    ensures PeerReceive(open, p, rs[..j]).0
    ensures PeerReceive(open, p, rs[..j]).2 == PeerReceive(open, p, rs).2[..j]
    decreases |rs|
  {
    if rs != [] {
      var p1 := PeerNext(p, open(p.epoch, p.count, rs[0]).message);
      if j == 0 {
        PeerPrefix(open, p1, rs[1..], 0);
      } else {
        PeerPrefix(open, p1, rs[1..], j - 1);
        assert rs[..j][1..] == rs[1..][..j - 1];
      }
    }
  }

  predicate Ordinary(m: Plain) {
    Sendable(m) && Bare(m) != KEY_UPDATE
  }

  lemma {:induction false} PeerFollowsRecords(seal: Cipher, open: Opener, epoch: nat, count: nat, ms: seq<Plain>)
    requires Matches(seal, open) && forall m :: m in ms ==> Ordinary(m)
    ensures PeerReceive(open, Peer(epoch, count), RecordsOf(SealAll(seal, epoch, count, ms))) ==
            (true, Peer(epoch, count + |ms|), BareAll(ms))
    decreases |ms|
  {
    var xs := SealAll(seal, epoch, count, ms);
    if ms != [] {
      assert ms[0] in ms;
      PeerFollowsRecords(seal, open, epoch, count + 1, ms[1..]);
      assert RecordsOf(xs)[1..] == RecordsOf(SealAll(seal, epoch, count + 1, ms[1..]));
      assert RecordsOf(xs)[0] == seal(epoch, count, ms[0]);
      assert BareAll(ms) == [Bare(ms[0])] + BareAll(ms[1..]);
    }
  }

  // ---- the run ----

  /** Operations of an established connection: no message but a key update looks like one, nothing goes
      out in the clear, and nothing but a write encrypts while a notice waits in the slot. */
  predicate Traffic(s: Sender, op: Op) {
    && Enabled(s, op) && Disciplined(s, op) && !op.ClearOp? && !op.RekeyOp?
    && (op.MessageOp? ==>
          && KnownType(op.m.typ) && (op.m.version == TLS12 || op.m.version == TLS13)
          && KEY_UPDATE !in BareAll(Fragments(op.m, s.maxFrag)))
  }

  ghost predicate TrafficRun(seal: Cipher, s: Sender, ops: seq<Op>, last: Sender)
    decreases |ops|
  {
    if ops == [] then s == last
    else Traffic(s, ops[0]) && TrafficRun(seal, Step(seal, s, ops[0]), ops[1..], last)
  }

  /** The peer, started at `p`, has followed everything encrypted so far. */
  predicate Followed(open: Opener, p: Peer, v: Visible) {
    PeerReceive(open, p, RecordsOf(v.log)) == (true, Peer(v.epoch, v.count), BareAll(PlainsOf(v.log)))
  }

  ghost predicate AllLegal(xs: seq<Sealed>) {
    forall i :: 0 <= i < |xs| ==> WellFormed(xs[i].record)
  }

  predicate AllProtected(items: seq<Item>) {
    forall i :: 0 <= i < |items| ==> items[i].Protected?
  }

  /** The peer has followed the log, and all that is or will be on the wire is legal. */
  ghost predicate Traceable(open: Opener, p: Peer, v: Visible) {
    && Followed(open, p, v) && AllLegal(v.log) && AllProtected(v.sent)
    && (v.slot.Some? ==> v.slot.value.plain == KEY_UPDATE)
  }

  /** The account of application bytes holds, and what is new since `base` is framed, in order and
      followed by the peer. */
  ghost predicate Deliverable(open: Opener, p: Peer, base: Visible, s: Sender) {
    && Accounted(s) && AppBytes(base.log) == [] && Extends(base, See(s))
    && New(open, p, Since(base, See(s)))
  }

  ghost predicate New(open: Opener, p: Peer, v: Visible) {
    Framed(v) && Ordered(v) && Traceable(open, p, v)
  }

  lemma FollowMore(open: Opener, p: Peer, v: Visible, xs: seq<Sealed>, q: Peer)
    requires Followed(open, p, v)
    requires PeerReceive(open, Peer(v.epoch, v.count), RecordsOf(xs)) == (true, q, BareAll(PlainsOf(xs)))
    ensures PeerReceive(open, p, RecordsOf(v.log + xs)) == (true, q, BareAll(PlainsOf(v.log + xs)))
  {
    assert RecordsOf(v.log + xs) == RecordsOf(v.log) + RecordsOf(xs);
    assert BareAll(PlainsOf(v.log + xs)) == BareAll(PlainsOf(v.log)) + BareAll(PlainsOf(xs));
    PeerAppend(open, p, RecordsOf(v.log), RecordsOf(xs));
  }

  lemma EmitFollowed(seal: Cipher, open: Opener, p: Peer, v: Visible, ms: seq<Plain>)
    requires Matches(seal, open) && Followed(open, p, v) && forall m :: m in ms ==> Ordinary(m)
    ensures Followed(open, p, Emit(seal, v, ms))
  {
    var xs := SealAll(seal, v.epoch, v.count, ms);
    PeerFollowsRecords(seal, open, v.epoch, v.count, ms);
    SealAllPlains(seal, v.epoch, v.count, ms);
    FollowMore(open, p, v, xs, Peer(v.epoch, v.count + |ms|));
  }

  lemma KeyUpdateFollowed(seal: Cipher, open: Opener, p: Peer, v: Visible)
    requires Matches(seal, open) && Followed(open, p, v)
    ensures Followed(open, p, EmitKeyUpdate(seal, v))
  {
    var r := seal(v.epoch, v.count, KEY_UPDATE);
    var x := Sealed(Use(v.epoch, v.count), KEY_UPDATE, r);
    assert RecordsOf([x]) == [r] && [r][1..] == [] && BareAll(PlainsOf([x])) == [KEY_UPDATE];
    assert Sendable(KEY_UPDATE) && Bare(open(v.epoch, v.count, r).message) == KEY_UPDATE;
    assert PeerReceive(open, Peer(v.epoch + 1, 0), []) == (true, Peer(v.epoch + 1, 0), []);
    assert PeerReceive(open, Peer(v.epoch, v.count), [r]) == (true, Peer(v.epoch + 1, 0), [KEY_UPDATE] + []);
    assert [KEY_UPDATE] + [] == BareAll(PlainsOf([x]));
    FollowMore(open, p, v, [x], Peer(v.epoch + 1, 0));
  }

  lemma {:induction false} SealAllLegal(seal: Cipher, open: Opener, epoch: nat, count: nat, ms: seq<Plain>)
    requires Matches(seal, open) && forall m :: m in ms ==> Ordinary(m)
    ensures AllLegal(SealAll(seal, epoch, count, ms))
    decreases |ms|
  {
    if ms != [] {
      assert ms[0] in ms;
      assert WellFormed(seal(epoch, count, ms[0]));
      SealAllLegal(seal, open, epoch, count + 1, ms[1..]);
      LegalAppend([SealAll(seal, epoch, count, ms)[0]], SealAll(seal, epoch, count + 1, ms[1..]));
    }
  }

  lemma LegalAppend(a: seq<Sealed>, b: seq<Sealed>)
    requires AllLegal(a) && AllLegal(b)
    ensures AllLegal(a + b)
  {
  }

  lemma {:induction false} FlushMessagesOrdinary(buffered: seq<seq<byte>>, max: nat)
    requires 0 < max <= MAX_FRAGMENT_LEN
    ensures forall m :: m in FlushMessages(buffered, max) ==> Ordinary(m)
  {
    if buffered != [] {
      FragmentsExact(AppMessage(buffered[0]), max);
      FlushMessagesOrdinary(buffered[1..], max);
    }
  }

  lemma MessageOrdinary(m: Plain, max: nat)
    requires 0 < max <= MAX_FRAGMENT_LEN && KnownType(m.typ) && (m.version == TLS12 || m.version == TLS13)
    requires KEY_UPDATE !in BareAll(Fragments(m, max))
    ensures forall f :: f in Fragments(m, max) ==> Ordinary(f)
  {
    var fs := Fragments(m, max);
    FragmentsExact(m, max);
    forall i | 0 <= i < |fs|
      ensures Ordinary(fs[i])
    {
      assert fs[i] in fs && BareAll(fs)[i] == Bare(fs[i]);
    }
  }

  lemma MessagesOrdinary(s: Sender, op: Op)
    requires Traffic(s, op)
    ensures forall m :: m in Messages(s, op) ==> Ordinary(m)
  {
    if op.StartOp? {
      FlushMessagesOrdinary(s.buffered, s.maxFrag);
    } else if op.MessageOp? {
      MessageOrdinary(op.m, s.maxFrag);
    } else if op.WriteOp? && s.started {
      var n := Allowed(s.limit, |WriteKeyUpdate(s).tls|, |op.data|);
      FragmentsExact(AppMessage(op.data[..n]), s.maxFrag);
    }
  }

  lemma EmitTraceable(seal: Cipher, open: Opener, p: Peer, v: Visible, ms: seq<Plain>)
    requires Matches(seal, open) && Traceable(open, p, v) && forall m :: m in ms ==> Ordinary(m)
    ensures Traceable(open, p, Emit(seal, v, ms))
  {
    EmitFollowed(seal, open, p, v, ms);
    SealAllLegal(seal, open, v.epoch, v.count, ms);
    LegalAppend(v.log, SealAll(seal, v.epoch, v.count, ms));
  }

  lemma KeyUpdateTraceable(seal: Cipher, open: Opener, p: Peer, v: Visible)
    requires Matches(seal, open) && Traceable(open, p, v)
    ensures Traceable(open, p, EmitKeyUpdate(seal, v))
  {
    KeyUpdateFollowed(seal, open, p, v);
    assert WellFormed(seal(v.epoch, v.count, KEY_UPDATE));
  }

  lemma ActTraceable(seal: Cipher, open: Opener, p: Peer, v: Visible, op: Op, ms: seq<Plain>)
    requires Matches(seal, open) && Traceable(open, p, v) && !op.ClearOp? && !op.RekeyOp?
    requires forall m :: m in ms ==> Ordinary(m)
    ensures Traceable(open, p, Act(seal, v, op, ms))
  {
    if op.KeyUpdateOp? {
      KeyUpdateTraceable(seal, open, p, v);
    } else {
      assert Traceable(open, p, EmitSlot(v));
      EmitTraceable(seal, open, p, if op.WriteOp? then EmitSlot(v) else v, ms);
    }
  }

  lemma StepDeliverable(seal: Cipher, open: Opener, p: Peer, base: Visible, s: Sender, op: Op)
    requires Matches(seal, open) && Deliverable(open, p, base, s) && Traffic(s, op)
    ensures Deliverable(open, p, base, Step(seal, s, op))
  {
    var v, ms := See(s), Outgoing(s, op);
    StepAccounted(seal, s, op);
    StepSeen(seal, s, op);
    MessagesOrdinary(s, op);
    ActSince(seal, base, v, op, ms);
    ActKeepsFramed(seal, Since(base, v), op, ms);
    ActKeepsOrdered(seal, Since(base, v), op, ms);
    ActTraceable(seal, open, p, Since(base, v), op, ms);
  }

  lemma {:induction false} RunDeliverable(
      seal: Cipher, open: Opener, p: Peer, base: Visible, s: Sender, ops: seq<Op>, last: Sender)
    requires Matches(seal, open) && Deliverable(open, p, base, s) && TrafficRun(seal, s, ops, last)
    ensures Deliverable(open, p, base, last)
    decreases |ops|
  {
    if ops != [] {
      StepDeliverable(seal, open, p, base, s, ops[0]);
      RunDeliverable(seal, open, p, base, Step(seal, s, ops[0]), ops[1..], last);
    }
  }

  /** The sender when its application key has just been installed. Plaintext may be waiting, and earlier
      records may still be queued. */
  predicate JustKeyed(s: Sender) {
    !s.started && s.slot.None? && s.accepted == Flat(s.buffered) && AppBytes(s.log) == []
  }

  lemma {:induction false} ProtectedOnWire(items: seq<Item>)
    requires AllProtected(items)
    ensures WireRecords(items) == RecordsOf(SealedOf(items))
  {
    if items != [] {
      ProtectedOnWire(items[1..]);
      assert WireRecords(items) == [items[0].Record()] + WireRecords(items[1..]);
      assert RecordsOf(SealedOf(items)) == [items[0].sealed.record] + RecordsOf(SealedOf(items[1..]));
    }
  }

  lemma CarriedPrefix(ms: seq<Plain>, j: nat)
    requires j <= |ms|
    ensures Carried(ms[..j]) <= Carried(ms)
  {
    assert ms == ms[..j] + ms[j..];
    CarriedAppend(ms[..j], ms[j..]);
  }

  lemma {:induction false} CarriedBare(ms: seq<Plain>)
    ensures Carried(BareAll(ms)) == Carried(ms)
  {
    if ms != [] {
      assert BareAll(ms)[1..] == BareAll(ms[1..]);
      CarriedBare(ms[1..]);
    }
  }

  /** The records read from the first `k` bytes of the stream are the first ones encrypted. */
  lemma CutRecords(open: Opener, p: Peer, v: Visible, k: nat) returns (j: nat)
    requires New(open, p, v) && k <= |v.stream|
    ensures j <= |v.log| - |Slot(v)| && ParseAll(v.stream[..k]) == RecordsOf(v.log)[..j]
    ensures k == |v.stream| ==> j == |v.log| - |Slot(v)|
  {
    var onWire := SealedOf(v.sent);
    assert onWire == v.log[..|onWire|];
    ProtectedOnWire(v.sent);
    ParseCut(RecordsOf(onWire), k);
    j := |ParseAll(v.stream[..k])|;
    assert RecordsOf(onWire) == RecordsOf(v.log)[..|onWire|];
  }

  /** What the peer gets from the first `k` bytes of the stream. */
  lemma CutDelivers(open: Opener, p: Peer, v: Visible, k: nat)
    requires New(open, p, v) && k <= |v.stream|
    ensures
      var (ok, _, ms) := PeerReceive(open, p, ParseAll(v.stream[..k]));
      && ok && Carried(ms) <= AppBytes(v.log)
      && (k == |v.stream| ==> Carried(ms) == AppBytes(v.log))
  {
    var j := CutRecords(open, p, v, k);
    var plains := PlainsOf(v.log);
    PeerPrefix(open, p, RecordsOf(v.log), j);
    assert BareAll(plains)[..j] == BareAll(plains[..j]);
    CarriedBare(plains[..j]);
    CarriedPrefix(plains, j);
    if k == |v.stream| {
      SlotCarriesNothing(open, p, v, j);
    }
  }

  lemma SlotCarriesNothing(open: Opener, p: Peer, v: Visible, j: nat)
    requires New(open, p, v) && j == |v.log| - |Slot(v)|
    ensures Carried(PlainsOf(v.log)[..j]) == AppBytes(v.log)
  {
    if v.slot.Some? {
      var last := [v.slot.value];
      assert v.log == v.log[..j] + last;
      AppBytesAppend(v.log[..j], last);
      OtherCarriesNothing(v.slot.value);
      assert PlainsOf(v.log[..j]) == PlainsOf(v.log)[..j];
    } else {
      assert PlainsOf(v.log)[..j] == PlainsOf(v.log);
    }
  }

  lemma StartsDeliverable(open: Opener, s: Sender)
    requires JustKeyed(s)
    ensures Deliverable(open, Peer(s.epoch, s.count), See(s), s)
  {
    var v := Since(See(s), See(s));
    assert v.log == [] && v.sent == [] && v.stream == [];
    assert RecordsOf(v.log) == [] && BareAll(PlainsOf(v.log)) == [] && WireRecords(v.sent) == [];
  }

  lemma NewBytes(base: seq<Sealed>, log: seq<Sealed>)
    requires base <= log && AppBytes(base) == []
    ensures AppBytes(log[|base|..]) == AppBytes(log)
  {
    assert log == base + log[|base|..];
    AppBytesAppend(base, log[|base|..]);
  }

  /** Reading these bytes, the peer opens every record and receives a prefix of `data`, or all of it. */
  predicate Delivers(open: Opener, p: Peer, bytes: seq<byte>, data: seq<byte>, all: bool) {
    var (ok, _, ms) := PeerReceive(open, p, ParseAll(bytes));
    ok && Carried(ms) <= data && (all ==> Carried(ms) == data)
  }

  lemma CutDeliversLog(open: Opener, p: Peer, v: Visible, k: nat, bytes: seq<byte>)
    requires New(open, p, v) && k <= |v.stream| && bytes == v.stream[..k]
    ensures Delivers(open, p, bytes, AppBytes(v.log), k == |v.stream|)
  {
    CutDelivers(open, p, v, k);
  }

  lemma DeliversMore(open: Opener, p: Peer, bytes: seq<byte>, data: seq<byte>, all: bool, more: seq<byte>, whole: bool)
    requires Delivers(open, p, bytes, data, all) && data <= more && (whole ==> all && data == more)
    ensures Delivers(open, p, bytes, more, whole)
  {
  }

  lemma NewDelivered(open: Opener, p: Peer, base: Visible, s: Sender, k: nat, bytes: seq<byte>)
    requires Deliverable(open, p, base, s) && |base.stream| + k <= |Stream(s)|
    requires bytes == Stream(s)[|base.stream|..|base.stream| + k]
    ensures Delivers(open, p, bytes, s.accepted, |base.stream| + k == |Stream(s)| && s.started)
  {
    var v := Since(base, See(s));
    assert bytes == v.stream[..k];
    CutDeliversLog(open, p, v, k, bytes);
    NewBytes(base.log, s.log);
    DeliversMore(open, p, bytes, AppBytes(v.log), k == |v.stream|, s.accepted,
                 |base.stream| + k == |Stream(s)| && s.started);
  }

  /** From the installation of the application key, whatever is still queued from before, over any run of
      writes, messages and key updates that stays below the soft limit, and for any number of new stream
      bytes that reach the peer: every record opens, and the application data received is a prefix of the
      bytes accepted; once traffic has started the whole stream gives them all. */
  lemma EndToEnd(seal: Cipher, open: Opener, s: Sender, ops: seq<Op>, last: Sender, k: nat)
    requires Matches(seal, open) && JustKeyed(s) && TrafficRun(seal, s, ops, last)
    requires |Stream(s)| + k <= |Stream(last)|
    ensures
      var start := |Stream(s)|;
      Delivers(open, Peer(s.epoch, s.count), Stream(last)[start..start + k], last.accepted,
               start + k == |Stream(last)| && last.started)
  {
    var p, base := Peer(s.epoch, s.count), See(s);
    StartsDeliverable(open, s);
    RunDeliverable(seal, open, p, base, s, ops, last);
    NewDelivered(open, p, base, last, k, Stream(last)[|Stream(s)|..|Stream(s)| + k]);
  }
}
