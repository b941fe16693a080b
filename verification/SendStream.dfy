/** What the outgoing byte stream holds: framing, each encrypted record exactly once, and order across key
    updates. */
module SendStream {
  import opened Prelude
  import opened Records
  import opened RecordLayer
  import opened SendPath
  import opened VecBuf

  function Stream(s: Sender): seq<byte> {
    s.written + s.tls
  }

  function WireRecords(items: seq<Item>): seq<Opaque> {
    seq(|items|, i requires 0 <= i < |items| => items[i].Record())
  }

  function SealedOf(items: seq<Item>): seq<Sealed> {
    if items == [] then []
    else (if items[0].Protected? then [items[0].sealed] else []) + SealedOf(items[1..])
  }

  lemma {:induction false} SealedOfAppend(a: seq<Item>, b: seq<Item>)
    ensures SealedOf(a + b) == SealedOf(a) + SealedOf(b)
  {
    if a == [] {
      assert a + b == b;
    } else {
      assert (a + b)[1..] == a[1..] + b;
      SealedOfAppend(a[1..], b);
      var head := if a[0].Protected? then [a[0].sealed] else [];
      assert head + (SealedOf(a[1..]) + SealedOf(b)) == head + SealedOf(a[1..]) + SealedOf(b);
    }
  }

  lemma {:induction false} SealedOfItems(xs: seq<Sealed>)
    ensures SealedOf(Items(xs)) == xs
  {
    if xs != [] {
      assert Items(xs)[1..] == Items(xs[1..]);
      SealedOfItems(xs[1..]);
    }
  }

  // ---- operations as fragments sent after a prologue ----

  function FlushMessages(buffered: seq<seq<byte>>, max: nat): seq<Plain>
    requires max > 0
  {
    if buffered == [] then []
    else Fragments(AppMessage(buffered[0]), max) + FlushMessages(buffered[1..], max)
  }

  /** The messages an operation encrypts onto the stream. */
  function Messages(s: Sender, op: Op): seq<Plain>
    requires s.maxFrag > 0
  {
    match op
    case WriteOp(data) =>
      if !s.started then []
      else Fragments(AppMessage(data[..Allowed(s.limit, |WriteKeyUpdate(s).tls|, |data|)]), s.maxFrag)
    case StartOp => FlushMessages(s.buffered, s.maxFrag)
    case MessageOp(m) => Fragments(m, s.maxFrag)
    case _ => []
  }

  /** The part of the state the peer can come to see. */
  datatype Visible = Visible(
    log: seq<Sealed>, sent: seq<Item>, stream: seq<byte>, slot: Option<Sealed>, epoch: nat, count: nat)

  function See(s: Sender): Visible {
    Visible(s.log, s.sent, Stream(s), s.slot, s.epoch, s.count)
  }

  function Emit(seal: Cipher, v: Visible, ms: seq<Plain>): Visible {
    var xs := SealAll(seal, v.epoch, v.count, ms);
    v.(log := v.log + xs, sent := v.sent + Items(xs), stream := v.stream + EncodeAll(RecordsOf(xs)),
       count := v.count + |ms|)
  }

  function EmitSlot(v: Visible): Visible {
    if v.slot.Some? then
      v.(slot := None, sent := v.sent + [Protected(v.slot.value)], stream := v.stream + Encode(v.slot.value.record))
    else v
  }

  function ClearItems(ms: seq<Plain>): seq<Item> {
    seq(|ms|, i requires 0 <= i < |ms| => InClear(Opaque(ms[i].typ, ms[i].version, ms[i].payload)))
  }

  function EmitClear(v: Visible, ms: seq<Plain>): Visible {
    var items := ClearItems(ms);
    v.(sent := v.sent + items, stream := v.stream + EncodeAll(WireRecords(items)))
  }

  lemma {:induction false} EmitClearFragments(s: Sender, ms: seq<Plain>)
    ensures See(SendClear(s, ms)) == EmitClear(See(s), ms)
    decreases |ms|
  {
    var items := ClearItems(ms);
    if ms == [] {
      assert WireRecords(items) == [];
    } else {
      var s1 := Queue(s, items[0]);
      EmitClearFragments(s1, ms[1..]);
      var rest := ClearItems(ms[1..]);
      assert items == [items[0]] + rest;
      assert WireRecords(items)[1..] == WireRecords(rest);
      assert Stream(s1) + EncodeAll(WireRecords(rest)) == Stream(s) + EncodeAll(WireRecords(items));
    }
  }

  lemma SeeSent(s: Sender, n: nat, xs: seq<Sealed>, items: seq<Item>, bytes: seq<byte>)
    ensures
      See(s.(count := s.count + n, log := s.log + xs, sent := s.sent + items, tls := s.tls + bytes)) ==
      See(s).(log := s.log + xs, sent := s.sent + items, stream := Stream(s) + bytes, count := s.count + n)
  {
    assert s.written + (s.tls + bytes) == Stream(s) + bytes;
  }

  lemma EmitFragments(seal: Cipher, s: Sender, ms: seq<Plain>)
    requires s.count + |ms| <= SEQ_HARD_LIMIT
    ensures See(SendFragments(seal, s, ms)) == Emit(seal, See(s), ms)
  {
    SendFragmentsExact(seal, s, ms);
    var xs := SealAll(seal, s.epoch, s.count, ms);
    SeeSent(s, |ms|, xs, Items(xs), EncodeAll(RecordsOf(xs)));
  }

  lemma EmitWriteKeyUpdate(s: Sender)
    ensures See(WriteKeyUpdate(s)) == EmitSlot(See(s))
  {
    if s.slot.Some? {
      var e := Encode(s.slot.value.record);
      assert s.written + (s.tls + e) == Stream(s) + e;
    }
  }

  lemma {:induction false} FlushIsOneSend(seal: Cipher, s: Sender)
    requires s.maxFrag > 0
    ensures Flush(seal, s) ==
            SendFragments(seal, s.(buffered := []), FlushMessages(s.buffered, s.maxFrag))
    ensures |FlushMessages(s.buffered, s.maxFrag)| == FlushCost(s.buffered, s.maxFrag)
    decreases |s.buffered|
  {
    if s.buffered != [] {
      var ms := Fragments(AppMessage(s.buffered[0]), s.maxFrag);
      var rest := FlushMessages(s.buffered[1..], s.maxFrag);
      var s1 := FlushOne(seal, s);
      FlushIsOneSend(seal, s1);
      SendFragmentsSplit(seal, s.(buffered := []), ms, rest);
      BufferedIrrelevant(seal, s.(buffered := s.buffered[1..]), ms, []);
    }
  }

  lemma {:induction false} BufferedIrrelevant(seal: Cipher, s: Sender, ms: seq<Plain>, buffered: seq<seq<byte>>)
    ensures SendFragments(seal, s, ms).(buffered := buffered) == SendFragments(seal, s.(buffered := buffered), ms)
    decreases |ms|
  {
    if ms != [] {
      BufferedIrrelevant(seal, SendFragment(seal, s, ms[0]), ms[1..], buffered);
    }
  }

  function EmitKeyUpdate(seal: Cipher, v: Visible): Visible {
    var x := Sealed(Use(v.epoch, v.count), KEY_UPDATE, seal(v.epoch, v.count, KEY_UPDATE));
    v.(log := v.log + [x], slot := Some(x), epoch := v.epoch + 1, count := 0)
  }

  /** The messages an operation puts on the stream, encrypted or not. */
  function Outgoing(s: Sender, op: Op): seq<Plain>
    requires s.maxFrag > 0
  {
    if op.ClearOp? then Fragments(op.m, s.maxFrag) else Messages(s, op)
  }

  /** What an operation that puts out `ms` does to the visible state. */
  function Act(seal: Cipher, v: Visible, op: Op, ms: seq<Plain>): Visible {
    match op
    case KeyUpdateOp => EmitKeyUpdate(seal, v)
    case RekeyOp => v.(epoch := v.epoch + 1, count := 0)
    case ClearOp(_) => EmitClear(v, ms)
    case _ => Emit(seal, if op.WriteOp? then EmitSlot(v) else v, ms)
  }

  function Seen(seal: Cipher, s: Sender, op: Op): Visible
    requires s.maxFrag > 0
  {
    Act(seal, See(s), op, Outgoing(s, op))
  }

  /** Seen from the stream, an operation first empties the slot (a write only) and then emits its
      messages; a key update fills the slot and changes the key. */
  lemma StepSeen(seal: Cipher, s: Sender, op: Op)
    requires Enabled(s, op)
    ensures |Messages(s, op)| <= Cost(s, op)
    ensures See(Step(seal, s, op)) == Seen(seal, s, op)
  {
    var ms := Messages(s, op);
    EmitWriteKeyUpdate(s);
    match op
    case WriteOp(data) =>
      if s.started {
        EmitFragments(seal, WriteKeyUpdate(s), ms);
      } else {
        EmitNothing(seal, EmitSlot(See(s)));
      }
    case StartOp =>
      var s0 := s.(started := true);
      FlushIsOneSend(seal, s0);
      EmitFragments(seal, s0.(buffered := []), ms);
    case MessageOp(m) => EmitFragments(seal, s, ms);
    case ClearOp(m) => EmitClearFragments(s, Fragments(m, s.maxFrag));
    case KeyUpdateOp =>
    case RekeyOp =>
    case WriteTlsOp(n) =>
      EmitNothing(seal, See(s));
      var k := Min(n, |s.tls|);
      assert s.written + s.tls[..k] + s.tls[k..] == Stream(s);
    case LimitOp(limit) => EmitNothing(seal, See(s));
  }

  lemma EmitNothing(seal: Cipher, v: Visible)
    ensures Emit(seal, v, []) == v
  {
    assert RecordsOf(SealAll(seal, v.epoch, v.count, [])) == [];
  }

  // ---- framing, conservation and order ----

  function Slot(v: Visible): seq<Sealed> {
    if v.slot.Some? then [v.slot.value] else []
  }

  /** The stream is the encoding of the records sent. */
  predicate Framed(v: Visible) {
    v.stream == EncodeAll(WireRecords(v.sent))
  }

  /** Every encrypted record is on the stream or in the slot, once. */
  ghost predicate Conserved(v: Visible) {
    multiset(SealedOf(v.sent)) + multiset(Slot(v)) == multiset(v.log)
  }

  /** The stream, with the slot at its end, is in the order of encryption. */
  predicate Ordered(v: Visible) {
    SealedOf(v.sent) + Slot(v) == v.log
  }

  /** Records are numbered upwards, so no two are equal, and a notice in the slot is of an older key. */
  ghost predicate Numbered(v: Visible) {
    && (forall i, j :: 0 <= i < j < |v.log| ==> Before(v.log[i].use, v.log[j].use))
    && (forall i :: 0 <= i < |v.log| ==> Before(v.log[i].use, Use(v.epoch, v.count)))
    && (v.slot.Some? ==> v.slot.value.use.epoch < v.epoch && v.slot.value.plain == KEY_UPDATE)
  }

  lemma EmitFramed(v: Visible, items: seq<Item>)
    requires Framed(v)
    ensures v.stream + EncodeAll(WireRecords(items)) == EncodeAll(WireRecords(v.sent + items))
  {
    assert WireRecords(v.sent + items) == WireRecords(v.sent) + WireRecords(items);
    EncodeAllAppend(WireRecords(v.sent), WireRecords(items));
  }

  lemma EmitKeepsFramed(seal: Cipher, v: Visible, ms: seq<Plain>)
    requires Framed(v)
    ensures Framed(Emit(seal, v, ms))
  {
    var xs := SealAll(seal, v.epoch, v.count, ms);
    assert WireRecords(Items(xs)) == RecordsOf(xs);
    EmitFramed(v, Items(xs));
  }

  lemma MultisetGrows(a: seq<Sealed>, slot: seq<Sealed>, log: seq<Sealed>, xs: seq<Sealed>)
    requires multiset(a) + multiset(slot) == multiset(log)
    ensures multiset(a + xs) + multiset(slot) == multiset(log + xs)
  {
  }

  lemma EmitSealed(seal: Cipher, v: Visible, ms: seq<Plain>)
    ensures SealedOf(Emit(seal, v, ms).sent) == SealedOf(v.sent) + SealAll(seal, v.epoch, v.count, ms)
  {
    var xs := SealAll(seal, v.epoch, v.count, ms);
    SealedOfAppend(v.sent, Items(xs));
    SealedOfItems(xs);
  }

  lemma EmitKeepsConserved(seal: Cipher, v: Visible, ms: seq<Plain>)
    requires Conserved(v)
    ensures Conserved(Emit(seal, v, ms))
  {
    EmitSealed(seal, v, ms);
    MultisetGrows(SealedOf(v.sent), Slot(v), v.log, SealAll(seal, v.epoch, v.count, ms));
  }

  lemma EmitKeepsOrdered(seal: Cipher, v: Visible, ms: seq<Plain>)
    requires Ordered(v) && v.slot.None?
    ensures Ordered(Emit(seal, v, ms))
  {
    EmitSealed(seal, v, ms);
  }

  lemma SlotItem(x: Sealed)
    ensures SealedOf([Protected(x)]) == [x]
    ensures EncodeAll(WireRecords([Protected(x)])) == Encode(x.record)
  {
    var items := [Protected(x)];
    assert items[1..] == [] && SealedOf(items[1..]) == [];
    assert WireRecords(items) == [x.record];
    assert EncodeAll([x.record]) == Encode(x.record) + EncodeAll([x.record][1..]);
  }

  lemma EmitSlotKeeps(v: Visible)
    ensures Framed(v) ==> Framed(EmitSlot(v))
    ensures Conserved(v) ==> Conserved(EmitSlot(v))
    ensures Ordered(v) ==> Ordered(EmitSlot(v))
    ensures EmitSlot(v).slot.None?
  {
    if v.slot.Some? {
      var items := [Protected(v.slot.value)];
      SlotItem(v.slot.value);
      SealedOfAppend(v.sent, items);
      if Framed(v) {
        EmitFramed(v, items);
      }
    }
  }

  lemma {:induction false} ClearIsNotSealed(ms: seq<Plain>)
    ensures SealedOf(ClearItems(ms)) == []
  {
    if ms != [] {
      assert ClearItems(ms)[1..] == ClearItems(ms[1..]);
      ClearIsNotSealed(ms[1..]);
    }
  }

  lemma EmitClearKeeps(v: Visible, ms: seq<Plain>)
    ensures Framed(v) ==> Framed(EmitClear(v, ms))
    ensures SealedOf(EmitClear(v, ms).sent) == SealedOf(v.sent)
  {
    SealedOfAppend(v.sent, ClearItems(ms));
    ClearIsNotSealed(ms);
    if Framed(v) {
      EmitFramed(v, ClearItems(ms));
    }
  }

  /** Key updates are enqueued only into an empty slot, as `should_update_key` demands. */
  predicate Guarded(s: Sender, op: Op) {
    op.KeyUpdateOp? ==> s.slot.None?
  }

  /** Nothing but a write, which empties the slot first, encrypts while the slot is full. */
  predicate Disciplined(s: Sender, op: Op)
    requires s.maxFrag > 0
  {
    op.WriteOp? || Cost(s, op) == 0 || s.slot.None?
  }

  lemma ActKeepsFramed(seal: Cipher, v: Visible, op: Op, ms: seq<Plain>)
    requires Framed(v)
    ensures Framed(Act(seal, v, op, ms))
  {
    if op.ClearOp? {
      EmitClearKeeps(v, ms);
    } else if !op.KeyUpdateOp? && !op.RekeyOp? {
      EmitSlotKeeps(v);
      EmitKeepsFramed(seal, if op.WriteOp? then EmitSlot(v) else v, ms);
    }
  }

  /** The stream always is the framing of the records sent. */
  lemma StepKeepsFramed(seal: Cipher, s: Sender, op: Op)
    requires Enabled(s, op) && Framed(See(s))
    ensures Framed(See(Step(seal, s, op)))
  {
    StepSeen(seal, s, op);
    ActKeepsFramed(seal, See(s), op, Outgoing(s, op));
  }

  lemma StepKeepsConserved(seal: Cipher, s: Sender, op: Op)
    requires Enabled(s, op) && Conserved(See(s)) && Guarded(s, op)
    ensures Conserved(See(Step(seal, s, op)))
  {
    var v := See(s);
    StepSeen(seal, s, op);
    if op.ClearOp? {
      EmitClearKeeps(v, Fragments(op.m, s.maxFrag));
    } else if !op.KeyUpdateOp? && !op.RekeyOp? {
      EmitSlotKeeps(v);
      EmitKeepsConserved(seal, if op.WriteOp? then EmitSlot(v) else v, Messages(s, op));
    }
  }

  lemma ActKeepsOrdered(seal: Cipher, v: Visible, op: Op, ms: seq<Plain>)
    requires Ordered(v)
    requires op.WriteOp? || op.ClearOp? || v.slot.None? || (ms == [] && !op.KeyUpdateOp?)
    ensures Ordered(Act(seal, v, op, ms))
  {
    if op.ClearOp? {
      EmitClearKeeps(v, ms);
    } else if op.WriteOp? {
      EmitSlotKeeps(v);
      EmitKeepsOrdered(seal, EmitSlot(v), ms);
    } else if !op.KeyUpdateOp? && !op.RekeyOp? {
      if v.slot.None? {
        EmitKeepsOrdered(seal, v, ms);
      } else {
        EmitNothing(seal, v);
      }
    }
  }

  lemma StepKeepsOrdered(seal: Cipher, s: Sender, op: Op)
    requires Enabled(s, op) && Ordered(See(s)) && Disciplined(s, op)
    ensures Ordered(See(Step(seal, s, op)))
  {
    StepSeen(seal, s, op);
    ActKeepsOrdered(seal, See(s), op, Outgoing(s, op));
  }

  ghost predicate DisciplinedRun(seal: Cipher, s: Sender, ops: seq<Op>, last: Sender)
    decreases |ops|
  {
    if ops == [] then s == last
    else Enabled(s, ops[0]) && Disciplined(s, ops[0]) && DisciplinedRun(seal, Step(seal, s, ops[0]), ops[1..], last)
  }

  /** Over every disciplined run, messages in clear and key changes included, the encrypted records stand
      on the stream in the order of encryption, with at most a waiting notice behind them; and the stream
      parses back into the records sent, if these are of legal size. */
  lemma {:induction false} OrderOverRuns(seal: Cipher, s: Sender, ops: seq<Op>, last: Sender)
    requires DisciplinedRun(seal, s, ops, last) && Framed(See(s)) && Ordered(See(s))
    ensures SealedOf(last.sent) + Slot(See(last)) == last.log && Framed(See(last))
    ensures AllWellFormed(WireRecords(last.sent)) ==> ParseAll(Stream(last)) == WireRecords(last.sent)
    decreases |ops|
  {
    if ops != [] {
      StepKeepsFramed(seal, s, ops[0]);
      StepKeepsOrdered(seal, s, ops[0]);
      OrderOverRuns(seal, Step(seal, s, ops[0]), ops[1..], last);
    } else if AllWellFormed(WireRecords(last.sent)) {
      ParsesBack(See(last));
    }
  }

  // ---- what has been sent since some earlier state ----

  predicate Extends(base: Visible, v: Visible) {
    base.log <= v.log && base.sent <= v.sent && base.stream <= v.stream
  }

  /** The visible state without what `base` already showed. */
  function Since(base: Visible, v: Visible): Visible
    requires Extends(base, v)
  {
    v.(log := v.log[|base.log|..], sent := v.sent[|base.sent|..], stream := v.stream[|base.stream|..])
  }

  lemma DropAppend<T>(base: seq<T>, a: seq<T>, b: seq<T>)
    requires base <= a
    ensures base <= a + b && (a + b)[|base|..] == a[|base|..] + b
  {
  }

  lemma EmitSince(seal: Cipher, base: Visible, v: Visible, ms: seq<Plain>)
    requires Extends(base, v)
    ensures Extends(base, Emit(seal, v, ms)) && Since(base, Emit(seal, v, ms)) == Emit(seal, Since(base, v), ms)
  {
    var xs := SealAll(seal, v.epoch, v.count, ms);
    DropAppend(base.log, v.log, xs);
    DropAppend(base.sent, v.sent, Items(xs));
    DropAppend(base.stream, v.stream, EncodeAll(RecordsOf(xs)));
  }

  lemma EmitSlotSince(base: Visible, v: Visible)
    requires Extends(base, v)
    ensures Extends(base, EmitSlot(v)) && Since(base, EmitSlot(v)) == EmitSlot(Since(base, v))
  {
    if v.slot.Some? {
      DropAppend(base.sent, v.sent, [Protected(v.slot.value)]);
      DropAppend(base.stream, v.stream, Encode(v.slot.value.record));
    }
  }

  /** An operation acts on what is new as it acts on the whole. */
  lemma ActSince(seal: Cipher, base: Visible, v: Visible, op: Op, ms: seq<Plain>)
    requires Extends(base, v)
    ensures Extends(base, Act(seal, v, op, ms))
    ensures Since(base, Act(seal, v, op, ms)) == Act(seal, Since(base, v), op, ms)
  {
    if op.KeyUpdateOp? {
      DropAppend(base.log, v.log, EmitKeyUpdate(seal, v).log[|v.log|..]);
    } else if op.ClearOp? {
      DropAppend(base.sent, v.sent, ClearItems(ms));
      DropAppend(base.stream, v.stream, EncodeAll(WireRecords(ClearItems(ms))));
    } else if !op.RekeyOp? {
      EmitSlotSince(base, v);
      EmitSince(seal, base, if op.WriteOp? then EmitSlot(v) else v, ms);
    }
  }

  lemma {:induction false} SealAllNumbers(seal: Cipher, epoch: nat, count: nat, ms: seq<Plain>)
    ensures
      var xs := SealAll(seal, epoch, count, ms);
      |xs| == |ms| && forall i :: 0 <= i < |xs| ==> xs[i].use == Use(epoch, count + i)
    decreases |ms|
  {
    if ms != [] {
      SealAllNumbers(seal, epoch, count + 1, ms[1..]);
      var xs := SealAll(seal, epoch, count, ms);
      var rest := SealAll(seal, epoch, count + 1, ms[1..]);
      forall i | 0 <= i < |xs| ensures xs[i].use == Use(epoch, count + i) {
        assert i > 0 ==> xs[i] == rest[i - 1];
      }
    }
  }

  lemma StepKeepsNumbered(seal: Cipher, s: Sender, op: Op)
    requires Enabled(s, op) && Numbered(See(s))
    ensures Numbered(See(Step(seal, s, op)))
  {
    StepSeen(seal, s, op);
    if !op.ClearOp? && !op.KeyUpdateOp? && !op.RekeyOp? {
      SealAllNumbers(seal, s.epoch, s.count, Messages(s, op));
    }
  }

  lemma EmitBreaksOrder(seal: Cipher, v: Visible, ms: seq<Plain>)
    requires Ordered(v) && Numbered(v) && v.slot.Some? && ms != []
    ensures !Ordered(Emit(seal, v, ms))
  {
    var xs := SealAll(seal, v.epoch, v.count, ms);
    SealAllNumbers(seal, v.epoch, v.count, ms);
    EmitSealed(seal, v, ms);
    var v' := Emit(seal, v, ms);
    var n := |SealedOf(v.sent)|;
    assert (SealedOf(v'.sent) + Slot(v'))[n] == xs[0];
    assert v'.log[n] == v.log[n] == v.slot.value;
  }

  /** Encrypting a message while a notice waits in the slot breaks the order, and only then. */
  lemma OrderKeptIffSlotEmpty(seal: Cipher, s: Sender, m: Plain)
    requires Enabled(s, MessageOp(m)) && m.payload != []
    requires Ordered(See(s)) && Numbered(See(s))
    ensures Ordered(See(Step(seal, s, MessageOp(m)))) <==> s.slot.None?
  {
    var ms := Messages(s, MessageOp(m));
    StepSeen(seal, s, MessageOp(m));
    if s.slot.None? {
      EmitKeepsOrdered(seal, See(s), ms);
    } else {
      EmitBreaksOrder(seal, See(s), ms);
    }
  }

  /** Enqueueing a notice over a waiting one loses the waiting one, and only then. */
  lemma NoticeKeptIffSlotEmpty(seal: Cipher, s: Sender)
    requires Enabled(s, KeyUpdateOp) && Conserved(See(s))
    ensures Conserved(See(Step(seal, s, KeyUpdateOp))) <==> s.slot.None?
  {
    var v := See(s);
    var v' := EmitKeyUpdate(seal, v);
    StepSeen(seal, s, KeyUpdateOp);
    if s.slot.Some? {
      assert |multiset(v'.log)| == |multiset(v.log)| + 1;
      assert |multiset(SealedOf(v.sent)) + multiset(Slot(v))| == |multiset(v.log)|;
      assert |multiset(SealedOf(v'.sent)) + multiset(Slot(v'))| == |multiset(v.log)|;
    }
  }

  ghost predicate GuardedRun(seal: Cipher, s: Sender, ops: seq<Op>, last: Sender)
    decreases |ops|
  {
    if ops == [] then s == last
    else Enabled(s, ops[0]) && Guarded(s, ops[0]) && GuardedRun(seal, Step(seal, s, ops[0]), ops[1..], last)
  }

  ghost predicate Distinct(log: seq<Sealed>) {
    forall i, j :: 0 <= i < j < |log| ==> log[i] != log[j]
  }

  lemma {:induction false} DistinctOnce(log: seq<Sealed>, x: Sealed)
    requires Distinct(log) && x in log
    ensures multiset(log)[x] == 1
  {
    var n := |log| - 1;
    assert log == log[..n] + [log[n]];
    if x in log[..n] {
      DistinctOnce(log[..n], x);
    }
  }

  lemma {:induction false} GuardedRunKeeps(seal: Cipher, s: Sender, ops: seq<Op>, last: Sender)
    requires GuardedRun(seal, s, ops, last) && Framed(See(s)) && Conserved(See(s)) && Numbered(See(s))
    ensures Framed(See(last)) && Conserved(See(last)) && Numbered(See(last))
    decreases |ops|
  {
    if ops != [] {
      StepKeepsFramed(seal, s, ops[0]);
      StepKeepsConserved(seal, s, ops[0]);
      StepKeepsNumbered(seal, s, ops[0]);
      GuardedRunKeeps(seal, Step(seal, s, ops[0]), ops[1..], last);
    }
  }

  lemma OncePerRecord(v: Visible)
    requires Conserved(v) && Numbered(v)
    ensures forall x :: x in v.log ==> multiset(SealedOf(v.sent))[x] + multiset(Slot(v))[x] == 1
  {
    assert forall i, j :: 0 <= i < j < |v.log| ==> Before(v.log[i].use, v.log[j].use);
    forall x | x in v.log ensures multiset(SealedOf(v.sent))[x] + multiset(Slot(v))[x] == 1 {
      DistinctOnce(v.log, x);
      assert (multiset(SealedOf(v.sent)) + multiset(Slot(v)))[x] == multiset(v.log)[x];
    }
  }

  lemma ParsesBack(v: Visible)
    requires Framed(v) && AllWellFormed(WireRecords(v.sent))
    ensures ParseAll(v.stream) == WireRecords(v.sent)
  {
    ParseCut(WireRecords(v.sent), |v.stream|);
    assert v.stream[..|v.stream|] == v.stream;
  }

  /** Over any run whose key updates find the slot empty, each encrypted record is in exactly one place:
      once on the stream or in the slot; and the stream parses back into the records sent, if these are
      of legal size. */
  lemma RecordsExactlyOnce(seal: Cipher, s: Sender, ops: seq<Op>, last: Sender)
    requires GuardedRun(seal, s, ops, last) && Framed(See(s)) && Conserved(See(s)) && Numbered(See(s))
    ensures forall x :: x in last.log ==>
              multiset(SealedOf(last.sent))[x] + multiset(Slot(See(last)))[x] == 1
    ensures AllWellFormed(WireRecords(last.sent)) ==> ParseAll(Stream(last)) == WireRecords(last.sent)
  {
    GuardedRunKeeps(seal, s, ops, last);
    OncePerRecord(See(last));
    if AllWellFormed(WireRecords(last.sent)) {
      ParsesBack(See(last));
    }
  }
}
