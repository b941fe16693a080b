/** The sending half of a TLS connection: plaintext buffered until the handshake ends, fragmentation,
    encryption, the queue of outgoing records and the slot for a key-update notice. The cipher is any
    function; what is needed of it is stated where it is used. */
module SendPath {
  import opened Prelude
  import opened Records
  import opened RecordLayer
  import opened VecBuf

  const MAX_FRAGMENT_LEN := 16384

  /** A record as it left the encrypter. */
  datatype Sealed = Sealed(use: Use, plain: Plain, record: Opaque)

  /** A record on the outgoing stream. */
  datatype Item = InClear(clear: Opaque) | Protected(sealed: Sealed)
  {
    function Record(): Opaque {
      if InClear? then clear else sealed.record
    }
  }

  /** `buffered` is the plaintext waiting for the handshake, `tls` the unsent record bytes and `slot`
      the queued key-update notice. The rest is history: bytes accepted from the application, records
      encrypted, records put on the stream, bytes handed to the transport. */
  datatype Sender = Sender(
    started: bool, maxFrag: nat, limit: Option<nat>,
    buffered: seq<seq<byte>>, tls: seq<byte>, slot: Option<Sealed>,
    epoch: nat, count: nat,
    accepted: seq<byte>, log: seq<Sealed>, sent: seq<Item>, written: seq<byte>)

  const KEY_UPDATE := Plain(HANDSHAKE, TLS13, [24, 0, 0, 1, 0])

  // ---- fragmentation ----

  /** `fragment_message` and `fragment_slice`: pieces of at most `max` bytes, none for an empty payload. */
  function Fragments(m: Plain, max: nat): seq<Plain>
    requires max > 0
    decreases |m.payload|
  {
    if m.payload == [] then []
    else if |m.payload| <= max then [m]
    else [m.(payload := m.payload[..max])] + Fragments(m.(payload := m.payload[max..]), max)
  }

  // ---- sending ----

  /** The records that encrypting `ms` from this position produces. */
  function SealAll(seal: Cipher, epoch: nat, count: nat, ms: seq<Plain>): seq<Sealed>
    decreases |ms|
  {
    if ms == [] then []
    else [Sealed(Use(epoch, count), ms[0], seal(epoch, count, ms[0]))] + SealAll(seal, epoch, count + 1, ms[1..])
  }

  function Queue(s: Sender, item: Item): Sender {
    s.(tls := s.tls + Encode(item.Record()), sent := s.sent + [item])
  }

  /** `encrypt_outgoing`. */
  function SealOne(seal: Cipher, s: Sender, m: Plain): (Sender, Sealed) {
    var x := Sealed(Use(s.epoch, s.count), m, seal(s.epoch, s.count, m));
    (s.(count := s.count + 1, log := s.log + [x]), x)
  }

  /** `send_single_fragment` away from the soft limit: past the hard limit the fragment is dropped. */
  function SendFragment(seal: Cipher, s: Sender, m: Plain): Sender {
    if s.count >= SEQ_HARD_LIMIT then s
    else
      var (s1, x) := SealOne(seal, s, m);
      Queue(s1, Protected(x))
  }

  function SendFragments(seal: Cipher, s: Sender, ms: seq<Plain>): Sender
    decreases |ms|
  {
    if ms == [] then s else SendFragments(seal, SendFragment(seal, s, ms[0]), ms[1..])
  }

  function WriteKeyUpdate(s: Sender): Sender {
    if s.slot.Some? then Queue(s.(slot := None), Protected(s.slot.value)) else s
  }

  function AppMessage(payload: seq<byte>): Plain {
    Plain(APPLICATION_DATA, TLS12, payload)
  }

  function SendAppData(seal: Cipher, s: Sender, payload: seq<byte>, limited: bool): (Sender, nat)
    requires s.maxFrag > 0
  {
    var n := if limited then Allowed(s.limit, |s.tls|, |payload|) else |payload|;
    (SendFragments(seal, s, Fragments(AppMessage(payload[..n]), s.maxFrag)), n)
  }

  function Buffer(s: Sender, data: seq<byte>): (Sender, nat) {
    var n := Allowed(s.limit, |Flat(s.buffered)|, |data|);
    (s.(buffered := if n == 0 then s.buffered else s.buffered + [data[..n]]), n)
  }

  /** `send_some_plaintext`. */
  function Write(seal: Cipher, s: Sender, data: seq<byte>): (Sender, nat)
    requires s.maxFrag > 0
  {
    var s0 := WriteKeyUpdate(s);
    var (s1, n) :=
      if !s.started then Buffer(s0, data)
      else if data == [] then (s0, 0)
      else SendAppData(seal, s0, data, true);
    (s1.(accepted := s1.accepted + data[..n]), n)
  }

  /** One round of `flush_plaintext`. */
  function FlushOne(seal: Cipher, s: Sender): (r: Sender)
    requires s.maxFrag > 0 && s.buffered != []
    ensures r.buffered == s.buffered[1..] && r.maxFrag == s.maxFrag
  {
    var s0 := s.(buffered := s.buffered[1..]);
    var ms := Fragments(AppMessage(s.buffered[0]), s.maxFrag);
    SendFragmentsKeeps(seal, s0, ms);
    SendFragments(seal, s0, ms)
  }

  /** `flush_plaintext`: the buffered chunks go out whatever the limit. */
  function Flush(seal: Cipher, s: Sender): Sender
    requires s.maxFrag > 0
    decreases |s.buffered|
  {
    if s.buffered == [] then s else Flush(seal, FlushOne(seal, s))
  }

  function StartTraffic(seal: Cipher, s: Sender): Sender
    requires s.maxFrag > 0
  {
    Flush(seal, s.(started := true))
  }

  /** `update_encrypter_and_notify`: the notice is encrypted into the slot, then the key changes. */
  function UpdateKey(seal: Cipher, s: Sender): Sender {
    var (s1, x) := SealOne(seal, s, KEY_UPDATE);
    s1.(slot := Some(x), epoch := s1.epoch + 1, count := 0)
  }

  lemma {:induction false} SendFragmentsKeeps(seal: Cipher, s: Sender, ms: seq<Plain>)
    ensures
      var s' := SendFragments(seal, s, ms);
      s' == s.(count := s'.count, tls := s'.tls, log := s'.log, sent := s'.sent)
    decreases |ms|
  {
    if ms != [] {
      SendFragmentsKeeps(seal, SendFragment(seal, s, ms[0]), ms[1..]);
    }
  }

  // ---- what sending fragments amounts to ----

  function Items(xs: seq<Sealed>): seq<Item> {
    seq(|xs|, i requires 0 <= i < |xs| => Protected(xs[i]))
  }

  function RecordsOf(xs: seq<Sealed>): seq<Opaque> {
    seq(|xs|, i requires 0 <= i < |xs| => xs[i].record)
  }

  lemma FirstSealed(x: Sealed, rest: seq<Sealed>)
    ensures Items([x] + rest) == [Protected(x)] + Items(rest)
    ensures EncodeAll(RecordsOf([x] + rest)) == Encode(x.record) + EncodeAll(RecordsOf(rest))
  {
    assert RecordsOf([x] + rest)[1..] == RecordsOf(rest);
  }

  /** Below the hard limit every fragment is encrypted and queued once, in order. */
  lemma {:induction false} SendFragmentsExact(seal: Cipher, s: Sender, ms: seq<Plain>)
    requires s.count + |ms| <= SEQ_HARD_LIMIT
    ensures
      var xs := SealAll(seal, s.epoch, s.count, ms);
      SendFragments(seal, s, ms) ==
      s.(count := s.count + |ms|, log := s.log + xs, sent := s.sent + Items(xs),
         tls := s.tls + EncodeAll(RecordsOf(xs)))
    decreases |ms|
  {
    var xs := SealAll(seal, s.epoch, s.count, ms);
    if ms == [] {
      assert RecordsOf(xs) == [];
    } else {
      var s1 := SendFragment(seal, s, ms[0]);
      var rest := SealAll(seal, s1.epoch, s1.count, ms[1..]);
      SendFragmentsExact(seal, s1, ms[1..]);
      assert xs == [xs[0]] + rest;
      FirstSealed(xs[0], rest);
      assert s.log + xs == s1.log + rest;
      assert s.sent + Items(xs) == s1.sent + Items(rest);
      assert s.tls + EncodeAll(RecordsOf(xs)) == s1.tls + EncodeAll(RecordsOf(rest));
    }
  }

  // ---- application bytes ----

  function PlainsOf(xs: seq<Sealed>): seq<Plain> {
    seq(|xs|, i requires 0 <= i < |xs| => xs[i].plain)
  }

  /** The application data among messages, in order. */
  function Carried(ms: seq<Plain>): seq<byte> {
    if ms == [] then []
    else (if ms[0].typ == APPLICATION_DATA then ms[0].payload else []) + Carried(ms[1..])
  }

  function AppBytes(log: seq<Sealed>): seq<byte> {
    Carried(PlainsOf(log))
  }

  lemma {:induction false} CarriedAppend(a: seq<Plain>, b: seq<Plain>)
    ensures Carried(a + b) == Carried(a) + Carried(b)
  {
    if a == [] {
      assert a + b == b;
    } else {
      assert (a + b)[1..] == a[1..] + b;
      CarriedAppend(a[1..], b);
    }
  }

  lemma AppBytesAppend(a: seq<Sealed>, b: seq<Sealed>)
    ensures AppBytes(a + b) == AppBytes(a) + AppBytes(b)
  {
    assert PlainsOf(a + b) == PlainsOf(a) + PlainsOf(b);
    CarriedAppend(PlainsOf(a), PlainsOf(b));
  }

  lemma OtherCarriesNothing(x: Sealed)
    requires x.plain.typ != APPLICATION_DATA
    ensures AppBytes([x]) == []
  {
    var ms := PlainsOf([x]);
    assert ms == [x.plain] && ms[1..] == [];
    assert Carried(ms) == [] + Carried(ms[1..]);
  }

  lemma {:induction false} SealAllPlains(seal: Cipher, epoch: nat, count: nat, ms: seq<Plain>)
    ensures PlainsOf(SealAll(seal, epoch, count, ms)) == ms
    decreases |ms|
  {
    if ms != [] {
      var rest := SealAll(seal, epoch, count + 1, ms[1..]);
      SealAllPlains(seal, epoch, count + 1, ms[1..]);
      assert PlainsOf(SealAll(seal, epoch, count, ms)) == [ms[0]] + PlainsOf(rest);
    }
  }

  /** The payloads of messages, joined. */
  function Payloads(ms: seq<Plain>): seq<byte> {
    if ms == [] then [] else ms[0].payload + Payloads(ms[1..])
  }

  /** The fragments of a message, of any type, join to exactly its payload; none is empty or over the
      bound, and they carry application data only for an application message. */
  lemma {:induction false} FragmentsExact(m: Plain, max: nat)
    requires max > 0
    ensures Payloads(Fragments(m, max)) == m.payload
    ensures Carried(Fragments(m, max)) == if m.typ == APPLICATION_DATA then m.payload else []
    ensures forall f :: f in Fragments(m, max) ==>
              f.typ == m.typ && f.version == m.version && 0 < |f.payload| <= max
    decreases |m.payload|
  {
    if |m.payload| > max {
      var m' := m.(payload := m.payload[max..]);
      FragmentsExact(m', max);
      assert Fragments(m, max)[1..] == Fragments(m', max);
      assert m.payload[..max] + m.payload[max..] == m.payload;
    } else if m.payload != [] {
      assert [m][1..] == [];
      assert Carried([m]) == (if m.typ == APPLICATION_DATA then m.payload else []) + Carried([m][1..]);
      assert Payloads([m]) == m.payload + Payloads([m][1..]);
    }
  }

  /** Sending a message below the hard limit adds its application data to the log. */
  lemma SentAppBytes(seal: Cipher, s: Sender, m: Plain)
    requires s.maxFrag > 0 && s.count + |Fragments(m, s.maxFrag)| <= SEQ_HARD_LIMIT
    ensures AppBytes(SendFragments(seal, s, Fragments(m, s.maxFrag)).log) ==
            AppBytes(s.log) + if m.typ == APPLICATION_DATA then m.payload else []
  {
    var ms := Fragments(m, s.maxFrag);
    SendFragmentsExact(seal, s, ms);
    SealAllPlains(seal, s.epoch, s.count, ms);
    AppBytesAppend(s.log, SealAll(seal, s.epoch, s.count, ms));
    FragmentsExact(m, s.maxFrag);
  }

  lemma {:induction false} SendFragmentsSplit(seal: Cipher, s: Sender, a: seq<Plain>, b: seq<Plain>)
    ensures SendFragments(seal, s, a + b) == SendFragments(seal, SendFragments(seal, s, a), b)
    decreases |a|
  {
    if a == [] {
      assert a + b == b;
    } else {
      assert (a + b)[1..] == a[1..] + b;
      SendFragmentsSplit(seal, SendFragment(seal, s, a[0]), a[1..], b);
    }
  }

  // ---- runs ----

  datatype Op =
    | WriteOp(data: seq<byte>)
    | StartOp
    | MessageOp(m: Plain)
    | ClearOp(m: Plain)
    | KeyUpdateOp
    | RekeyOp
    | WriteTlsOp(n: nat)
    | LimitOp(limit: Option<nat>)

  function SendClear(s: Sender, ms: seq<Plain>): Sender
    decreases |ms|
  {
    if ms == [] then s
    else SendClear(Queue(s, InClear(Opaque(ms[0].typ, ms[0].version, ms[0].payload))), ms[1..])
  }

  function Step(seal: Cipher, s: Sender, op: Op): Sender
    requires s.maxFrag > 0
  {
    match op
    case WriteOp(data) => Write(seal, s, data).0
    case StartOp => StartTraffic(seal, s)
    case MessageOp(m) => SendFragments(seal, s, Fragments(m, s.maxFrag))
    case ClearOp(m) => SendClear(s, Fragments(m, s.maxFrag))
    case KeyUpdateOp => UpdateKey(seal, s)
    case RekeyOp => s.(epoch := s.epoch + 1, count := 0)
    case WriteTlsOp(n) =>
      var k := Min(n, |s.tls|);
      s.(written := s.written + s.tls[..k], tls := s.tls[k..])
    case LimitOp(limit) => s.(limit := limit)
  }

  function FlushCost(buffered: seq<seq<byte>>, max: nat): nat
    requires max > 0
  {
    if buffered == [] then 0
    else |Fragments(AppMessage(buffered[0]), max)| + FlushCost(buffered[1..], max)
  }

  /** How many records an operation encrypts. */
  function Cost(s: Sender, op: Op): nat
    requires s.maxFrag > 0
  {
    match op
    case WriteOp(data) =>
      if !s.started then 0
      else
        var n := Allowed(s.limit, |WriteKeyUpdate(s).tls|, |data|);
        |Fragments(AppMessage(data[..n]), s.maxFrag)|
    case StartOp => FlushCost(s.buffered, s.maxFrag)
    case MessageOp(m) => |Fragments(m, s.maxFrag)|
    case KeyUpdateOp => 1
    case _ => 0
  }

  /** The operation encrypts nothing through `send_single_fragment` at the soft limit. A key-update
      notice does not go through it. */
  predicate Fits(s: Sender, op: Op)
    requires s.maxFrag > 0
  {
    s.count + (if op.KeyUpdateOp? then 0 else Cost(s, op)) <= SEQ_SOFT_LIMIT
  }

  /** The operation fits, and only `Write` carries application data. */
  predicate Enabled(s: Sender, op: Op) {
    && 0 < s.maxFrag <= MAX_FRAGMENT_LEN
    && Fits(s, op)
    && (op.MessageOp? ==> op.m.typ != APPLICATION_DATA)
  }

  /** Accepted bytes are where they should be: all buffered before the start, all encrypted after. */
  predicate Accounted(s: Sender) {
    if s.started then s.buffered == [] && s.accepted == AppBytes(s.log)
    else s.accepted == Flat(s.buffered) && AppBytes(s.log) == []
  }

  lemma FlushOneExact(seal: Cipher, s: Sender)
    requires s.maxFrag > 0 && s.buffered != []
    requires s.count + |Fragments(AppMessage(s.buffered[0]), s.maxFrag)| <= SEQ_HARD_LIMIT
    ensures
      var s' := FlushOne(seal, s);
      && AppBytes(s'.log) == AppBytes(s.log) + s.buffered[0]
      && s'.count == s.count + |Fragments(AppMessage(s.buffered[0]), s.maxFrag)|
      && s' == s.(buffered := s.buffered[1..], count := s'.count, tls := s'.tls, log := s'.log, sent := s'.sent)
  {
    var s0 := s.(buffered := s.buffered[1..]);
    SendFragmentsExact(seal, s0, Fragments(AppMessage(s.buffered[0]), s.maxFrag));
    SentAppBytes(seal, s0, AppMessage(s.buffered[0]));
  }

  lemma {:induction false} FlushExact(seal: Cipher, s: Sender)
    requires s.maxFrag > 0 && s.count + FlushCost(s.buffered, s.maxFrag) <= SEQ_HARD_LIMIT
    ensures
      var s' := Flush(seal, s);
      && AppBytes(s'.log) == AppBytes(s.log) + Flat(s.buffered)
      && s' == s.(buffered := [], count := s'.count, tls := s'.tls, log := s'.log, sent := s'.sent)
    decreases |s.buffered|
  {
    if s.buffered != [] {
      FlushOneExact(seal, s);
      FlushExact(seal, FlushOne(seal, s));
    }
  }

  lemma {:induction false} SendClearKeeps(s: Sender, ms: seq<Plain>)
    ensures
      var s' := SendClear(s, ms);
      s' == s.(tls := s'.tls, sent := s'.sent)
    decreases |ms|
  {
    if ms != [] {
      SendClearKeeps(Queue(s, InClear(Opaque(ms[0].typ, ms[0].version, ms[0].payload))), ms[1..]);
    }
  }

  /** The bytes accepted by a write that stays below the soft limit are all encrypted, in order, after
      those before. WriteReturnsIff covers the other writes. */
  lemma WriteConserves(seal: Cipher, s: Sender, data: seq<byte>)
    requires s.maxFrag > 0 && s.started && s.count + Cost(s, WriteOp(data)) <= SEQ_SOFT_LIMIT
    ensures
      var (s', n) := Write(seal, s, data);
      AppBytes(s'.log) == AppBytes(s.log) + data[..n]
  {
    var s0 := WriteKeyUpdate(s);
    SentAppBytes(seal, s0, AppMessage(data[..Allowed(s.limit, |s0.tls|, |data|)]));
  }

  /** A message sent in clear is on the stream whole: records of its type and version whose payloads join to
      its payload, framed in order. */
  lemma {:induction false} ClearSent(s: Sender, ms: seq<Plain>)
    ensures
      var s' := SendClear(s, ms);
      && |s'.sent| == |s.sent| + |ms| && s.sent <= s'.sent
      && (forall i :: 0 <= i < |ms| ==>
            s'.sent[|s.sent| + i] == InClear(Opaque(ms[i].typ, ms[i].version, ms[i].payload)))
      && s'.tls == s.tls + EncodeAll(seq(|ms|, i requires 0 <= i < |ms| => Opaque(ms[i].typ, ms[i].version, ms[i].payload)))
    decreases |ms|
  {
    var rs := seq(|ms|, i requires 0 <= i < |ms| => Opaque(ms[i].typ, ms[i].version, ms[i].payload));
    if ms == [] {
      assert rs == [];
    } else {
      var s1 := Queue(s, InClear(rs[0]));
      ClearSent(s1, ms[1..]);
      assert rs[1..] == seq(|ms| - 1, i requires 0 <= i < |ms| - 1 =>
                              Opaque(ms[1..][i].typ, ms[1..][i].version, ms[1..][i].payload));
      assert s1.tls + EncodeAll(rs[1..]) == s.tls + EncodeAll(rs);
    }
  }

  /** Every operation keeps the account of application bytes. */
  lemma StepAccounted(seal: Cipher, s: Sender, op: Op)
    requires Enabled(s, op) && Accounted(s)
    ensures Accounted(Step(seal, s, op))
  {
    match op
    case WriteOp(data) =>
      if s.started {
        WriteConserves(seal, s, data);
        SendFragmentsKeeps(seal, WriteKeyUpdate(s), Fragments(AppMessage(data[..Write(seal, s, data).1]), s.maxFrag));
      } else {
        FlatPush(s.buffered, data[..Write(seal, s, data).1]);
      }
    case StartOp => FlushExact(seal, s.(started := true));
    case MessageOp(m) =>
      SendFragmentsKeeps(seal, s, Fragments(m, s.maxFrag));
      SentAppBytes(seal, s, m);
    case ClearOp(m) => SendClearKeeps(s, Fragments(m, s.maxFrag));
    case KeyUpdateOp =>
      var x := SealOne(seal, s, KEY_UPDATE).1;
      AppBytesAppend(s.log, [x]);
      OtherCarriesNothing(x);
    case RekeyOp =>
    case WriteTlsOp(n) =>
    case LimitOp(limit) =>
  }

  ghost predicate Reachable(seal: Cipher, s: Sender, ops: seq<Op>, last: Sender)
    decreases |ops|
  {
    if ops == [] then s == last
    else Enabled(s, ops[0]) && Reachable(seal, Step(seal, s, ops[0]), ops[1..], last)
  }

  /** Over any run below the soft limit the bytes accepted from the application are, in order and
      exactly once, the buffered plaintext before the start and the encrypted application data after. */
  lemma {:induction false} AcceptedBytesConserved(seal: Cipher, s: Sender, ops: seq<Op>, last: Sender)
    requires Accounted(s) && Reachable(seal, s, ops, last)
    ensures Accounted(last)
    decreases |ops|
  {
    if ops != [] {
      StepAccounted(seal, s, ops[0]);
      AcceptedBytesConserved(seal, Step(seal, s, ops[0]), ops[1..], last);
    }
  }

  // ---- the soft limit ----

  /** A call that returns, or one that runs out of stack first. */
  datatype Attempt<T> = OutOfStack | Done(value: T)

  /** `send_single_fragment` with its detour: at the soft limit it first sends a close-notify alert,
      which is again a single fragment and meets the same counter. `depth` bounds the call stack. */
  function SendFragmentDeep(seal: Cipher, s: Sender, m: Plain, closeNotify: Plain, depth: nat): Attempt<Sender>
    decreases depth
  {
    if depth == 0 then OutOfStack
    else if s.count == SEQ_SOFT_LIMIT then
      match SendFragmentDeep(seal, s, closeNotify, closeNotify, depth - 1)
      case OutOfStack => OutOfStack
      case Done(s1) => Done(SendFragment(seal, s1, m))
    else Done(SendFragment(seal, s, m))
  }

  /** The call returns, from any stack, exactly when the counter is not at the soft limit. */
  lemma {:induction false} SoftLimitRecursion(seal: Cipher, s: Sender, m: Plain, closeNotify: Plain, depth: nat)
    requires depth > 0
    ensures SendFragmentDeep(seal, s, m, closeNotify, depth) ==
            if s.count == SEQ_SOFT_LIMIT then OutOfStack else Done(SendFragment(seal, s, m))
    decreases depth
  {
    if depth > 1 && s.count == SEQ_SOFT_LIMIT {
      SoftLimitRecursion(seal, s, closeNotify, closeNotify, depth - 1);
    }
  }

  function SendAllDeep(seal: Cipher, s: Sender, ms: seq<Plain>, closeNotify: Plain, depth: nat): Attempt<Sender>
    decreases |ms|
  {
    if ms == [] then Done(s)
    else
      match SendFragmentDeep(seal, s, ms[0], closeNotify, depth)
      case OutOfStack => OutOfStack
      case Done(s1) => SendAllDeep(seal, s1, ms[1..], closeNotify, depth)
  }

  lemma {:induction false} SendAllReturnsIff(seal: Cipher, s: Sender, ms: seq<Plain>, closeNotify: Plain, depth: nat)
    requires depth > 0 && s.count <= SEQ_SOFT_LIMIT
    ensures SendAllDeep(seal, s, ms, closeNotify, depth) ==
            if s.count + |ms| <= SEQ_SOFT_LIMIT then Done(SendFragments(seal, s, ms)) else OutOfStack
    decreases |ms|
  {
    if ms != [] {
      SoftLimitRecursion(seal, s, ms[0], closeNotify, depth);
      if s.count < SEQ_SOFT_LIMIT {
        SendAllReturnsIff(seal, SendFragment(seal, s, ms[0]), ms[1..], closeNotify, depth);
      }
    }
  }

  /** `flush_plaintext`; sending a chunk leaves the fields restored here as they were. */
  function FlushDeep(seal: Cipher, s: Sender, closeNotify: Plain, depth: nat): Attempt<Sender>
    requires s.maxFrag > 0
    decreases |s.buffered|
  {
    if s.buffered == [] then Done(s)
    else
      var s0 := s.(buffered := s.buffered[1..]);
      match SendAllDeep(seal, s0, Fragments(AppMessage(s.buffered[0]), s.maxFrag), closeNotify, depth)
      case OutOfStack => OutOfStack
      case Done(s1) => FlushDeep(seal, s1.(buffered := s0.buffered, maxFrag := s0.maxFrag), closeNotify, depth)
  }

  lemma {:induction false} FlushReturnsIff(seal: Cipher, s: Sender, closeNotify: Plain, depth: nat)
    requires s.maxFrag > 0 && depth > 0 && s.count <= SEQ_SOFT_LIMIT
    ensures FlushDeep(seal, s, closeNotify, depth) ==
            if s.count + FlushCost(s.buffered, s.maxFrag) <= SEQ_SOFT_LIMIT then Done(Flush(seal, s)) else OutOfStack
    decreases |s.buffered|
  {
    if s.buffered != [] {
      var s0 := s.(buffered := s.buffered[1..]);
      var ms := Fragments(AppMessage(s.buffered[0]), s.maxFrag);
      SendAllReturnsIff(seal, s0, ms, closeNotify, depth);
      if s.count + |ms| <= SEQ_SOFT_LIMIT {
        FlushOneExact(seal, s);
        FlushReturnsIff(seal, FlushOne(seal, s), closeNotify, depth);
      }
    }
  }

  function WriteDeep(seal: Cipher, s: Sender, data: seq<byte>, closeNotify: Plain, depth: nat): Attempt<(Sender, nat)>
    requires s.maxFrag > 0
  {
    if !s.started then Done(Write(seal, s, data))
    else
      var s0 := WriteKeyUpdate(s);
      var n := Allowed(s0.limit, |s0.tls|, |data|);
      match SendAllDeep(seal, s0, Fragments(AppMessage(data[..n]), s0.maxFrag), closeNotify, depth)
      case OutOfStack => OutOfStack
      case Done(s1) => Done((s1.(accepted := s1.accepted + data[..n]), n))
  }

  /** A write returns, from any stack, exactly when its records stay below the soft limit, and then
      every byte it accepts is encrypted. */
  lemma WriteReturnsIff(seal: Cipher, s: Sender, data: seq<byte>, closeNotify: Plain, depth: nat)
    requires s.maxFrag > 0 && s.started && s.count <= SEQ_SOFT_LIMIT && depth > 0
    ensures
      var r := WriteDeep(seal, s, data, closeNotify, depth);
      && (r.Done? <==> s.count + Cost(s, WriteOp(data)) <= SEQ_SOFT_LIMIT)
      && (r.Done? ==>
            && r.value == Write(seal, s, data)
            && AppBytes(r.value.0.log) == AppBytes(s.log) + data[..r.value.1])
  {
    var s0 := WriteKeyUpdate(s);
    var ms := Fragments(AppMessage(data[..Allowed(s0.limit, |s0.tls|, |data|)]), s0.maxFrag);
    SendAllReturnsIff(seal, s0, ms, closeNotify, depth);
    if s.count + Cost(s, WriteOp(data)) <= SEQ_SOFT_LIMIT {
      WriteConserves(seal, s, data);
    }
  }

  /** One operation of the source, which may not return. */
  function StepDeep(seal: Cipher, s: Sender, op: Op, closeNotify: Plain, depth: nat): Attempt<Sender>
    requires s.maxFrag > 0
  {
    match op
    case WriteOp(data) =>
      (match WriteDeep(seal, s, data, closeNotify, depth)
       case OutOfStack => OutOfStack
       case Done(r) => Done(r.0))
    case StartOp => FlushDeep(seal, s.(started := true), closeNotify, depth)
    case MessageOp(m) => SendAllDeep(seal, s, Fragments(m, s.maxFrag), closeNotify, depth)
    case _ => Done(Step(seal, s, op))
  }

  /** An operation returns exactly when it fits, and leaves the counter at or below the soft limit: the
      numbers between the soft and the hard limit are never used. */
  lemma StepReturnsIff(seal: Cipher, s: Sender, op: Op, closeNotify: Plain, depth: nat)
    requires s.maxFrag > 0 && s.count <= SEQ_SOFT_LIMIT && depth > 0
    ensures StepDeep(seal, s, op, closeNotify, depth) == if Fits(s, op) then Done(Step(seal, s, op)) else OutOfStack
    ensures Fits(s, op) ==> Step(seal, s, op).count <= SEQ_SOFT_LIMIT
  {
    if op.WriteOp? {
      WriteStepReturns(seal, s, op.data, closeNotify, depth);
    } else if op.StartOp? {
      StartReturns(seal, s, closeNotify, depth);
    } else if op.MessageOp? {
      SendAllReturnsIff(seal, s, Fragments(op.m, s.maxFrag), closeNotify, depth);
      if Fits(s, op) {
        SendFragmentsExact(seal, s, Fragments(op.m, s.maxFrag));
      }
    } else if op.ClearOp? {
      SendClearKeeps(s, Fragments(op.m, s.maxFrag));
    }
  }

  lemma WriteStepReturns(seal: Cipher, s: Sender, data: seq<byte>, closeNotify: Plain, depth: nat)
    requires s.maxFrag > 0 && s.count <= SEQ_SOFT_LIMIT && depth > 0
    ensures
      var r, op := WriteDeep(seal, s, data, closeNotify, depth), WriteOp(data);
      && r == (if Fits(s, op) then Done(Write(seal, s, data)) else OutOfStack)
      && (Fits(s, op) ==> Write(seal, s, data).0.count <= SEQ_SOFT_LIMIT)
  {
    if s.started {
      WriteReturnsIff(seal, s, data, closeNotify, depth);
      var s0 := WriteKeyUpdate(s);
      if Fits(s, WriteOp(data)) {
        SendFragmentsExact(seal, s0, Fragments(AppMessage(data[..Allowed(s0.limit, |s0.tls|, |data|)]), s0.maxFrag));
      }
    }
  }

  lemma {:induction false} FlushCount(seal: Cipher, s: Sender)
    requires s.maxFrag > 0 && s.count + FlushCost(s.buffered, s.maxFrag) <= SEQ_HARD_LIMIT
    ensures Flush(seal, s).count == s.count + FlushCost(s.buffered, s.maxFrag)
    decreases |s.buffered|
  {
    if s.buffered != [] {
      FlushOneExact(seal, s);
      FlushCount(seal, FlushOne(seal, s));
    }
  }

  lemma StartReturns(seal: Cipher, s: Sender, closeNotify: Plain, depth: nat)
    requires s.maxFrag > 0 && s.count <= SEQ_SOFT_LIMIT && depth > 0
    ensures FlushDeep(seal, s.(started := true), closeNotify, depth) ==
            if Fits(s, StartOp) then Done(StartTraffic(seal, s)) else OutOfStack
    ensures Fits(s, StartOp) ==> StartTraffic(seal, s).count <= SEQ_SOFT_LIMIT
  {
    FlushReturnsIff(seal, s.(started := true), closeNotify, depth);
    if Fits(s, StartOp) {
      FlushCount(seal, s.(started := true));
    }
  }

  /** A run of the source in which every operation returns. */
  ghost predicate ReturningRun(seal: Cipher, s: Sender, ops: seq<Op>, closeNotify: Plain, depth: nat, last: Sender)
    decreases |ops|
  {
    && 0 < s.maxFrag <= MAX_FRAGMENT_LEN
    && if ops == [] then s == last
       else
         && (ops[0].MessageOp? ==> ops[0].m.typ != APPLICATION_DATA)
         && var r := StepDeep(seal, s, ops[0], closeNotify, depth);
            r.Done? && ReturningRun(seal, r.value, ops[1..], closeNotify, depth, last)
  }

  /** Whatever the stack, in every run whose calls return the counter never passes the soft limit, and
      the bytes accepted are, in order and exactly once, the buffered plaintext before the start and the
      encrypted application data after. */
  lemma {:induction false} ReturningRunConserves(
      seal: Cipher, s: Sender, ops: seq<Op>, closeNotify: Plain, depth: nat, last: Sender)
    requires ReturningRun(seal, s, ops, closeNotify, depth, last) && depth > 0
    requires s.count <= SEQ_SOFT_LIMIT && Accounted(s)
    ensures last.count <= SEQ_SOFT_LIMIT && Accounted(last)
    ensures Reachable(seal, s, ops, last)
    decreases |ops|
  {
    if ops != [] {
      StepReturnsIff(seal, s, ops[0], closeNotify, depth);
      StepAccounted(seal, s, ops[0]);
      ReturningRunConserves(seal, Step(seal, s, ops[0]), ops[1..], closeNotify, depth, last);
    }
  }

  // ---- vectored writes ----

  /** `write_vectored`: the buffers are written one by one and the counts added up. */
  function WriteVectored(seal: Cipher, s: Sender, bufs: seq<seq<byte>>): (Sender, nat)
    requires s.maxFrag > 0
    decreases |bufs|
  {
    if bufs == [] then (s, 0)
    else
      var (s1, n) := Write(seal, s, bufs[0]);
      WriteKeepsShape(seal, s, bufs[0]);
      var (s2, k) := WriteVectored(seal, s1, bufs[1..]);
      (s2, n + k)
  }

  lemma WriteKeepsShape(seal: Cipher, s: Sender, data: seq<byte>)
    requires s.maxFrag > 0
    ensures
      var (s', n) := Write(seal, s, data);
      && s'.maxFrag == s.maxFrag && s'.limit == s.limit && s'.started == s.started
      && n <= |data| && s'.accepted == s.accepted + data[..n] && s.count <= s'.count
  {
    if s.started {
      var s0 := WriteKeyUpdate(s);
      var n := Allowed(s.limit, |s0.tls|, |data|);
      SendFragmentsKeeps(seal, s0, Fragments(AppMessage(data[..n]), s.maxFrag));
      CountGrows(seal, s0, Fragments(AppMessage(data[..n]), s.maxFrag));
    }
  }

  lemma {:induction false} CountGrows(seal: Cipher, s: Sender, ms: seq<Plain>)
    ensures s.count <= SendFragments(seal, s, ms).count
    decreases |ms|
  {
    if ms != [] {
      CountGrows(seal, SendFragment(seal, s, ms[0]), ms[1..]);
    }
  }

  /** Ciphertexts are at least as long as their plaintexts. */
  ghost predicate Expands(seal: Cipher) {
    forall e, n, m :: |seal(e, n, m).payload| >= |m.payload|
  }

  predicate Full(s: Sender) {
    s.limit.Some? && s.limit.value <= if s.started then |s.tls| else |Flat(s.buffered)|
  }

  lemma {:induction false} TlsGrows(seal: Cipher, s: Sender, ms: seq<Plain>)
    requires Expands(seal) && s.count + |ms| <= SEQ_HARD_LIMIT
    ensures |SendFragments(seal, s, ms).tls| >= |s.tls| + |Carried(ms)|
    decreases |ms|
  {
    if ms != [] {
      assert |seal(s.epoch, s.count, ms[0]).payload| >= |ms[0].payload|;
      TlsGrows(seal, SendFragment(seal, s, ms[0]), ms[1..]);
    }
  }

  /** A write that stops short leaves the buffer full, and a full buffer accepts nothing and stays full. */
  lemma ShortWriteFills(seal: Cipher, s: Sender, data: seq<byte>)
    requires Expands(seal) && Enabled(s, WriteOp(data))
    ensures
      var (s', n) := Write(seal, s, data);
      && (n < |data| || Full(s) ==> Full(s'))
      && (Full(s) ==> n == 0)
  {
    var (s', n) := Write(seal, s, data);
    if s.started {
      var s0 := WriteKeyUpdate(s);
      var m := AppMessage(data[..Allowed(s.limit, |s0.tls|, |data|)]);
      SendFragmentsKeeps(seal, s0, Fragments(m, s.maxFrag));
      TlsGrows(seal, s0, Fragments(m, s.maxFrag));
      FragmentsExact(m, s.maxFrag);
    } else {
      FlatPush(s.buffered, data[..n]);
    }
  }

  /** All writes of the vector stay below the soft limit. */
  predicate VectorEnabled(seal: Cipher, s: Sender, bufs: seq<seq<byte>>)
    decreases |bufs|
  {
    bufs == [] || (Enabled(s, WriteOp(bufs[0])) &&
                   (WriteKeepsShape(seal, s, bufs[0]);
                    VectorEnabled(seal, Write(seal, s, bufs[0]).0, bufs[1..])))
  }

  /** Writing the rest of the buffers ends where the whole vectored write is to end. */
  predicate LeadsTo(seal: Cipher, s: Sender, bufs: seq<seq<byte>>, sz: nat, target: (Sender, nat)) {
    s.maxFrag > 0 && var (last, k) := WriteVectored(seal, s, bufs); target == (last, sz + k)
  }

  lemma VectorStep(
      seal: Cipher, s: Sender, bufs: seq<seq<byte>>, rest: seq<seq<byte>>, s1: Sender, n: nat, sz: nat, target: (Sender, nat))
    requires bufs != [] && rest == bufs[1..]
    requires VectorEnabled(seal, s, bufs) && Write(seal, s, bufs[0]) == (s1, n)
    requires LeadsTo(seal, s, bufs, sz, target)
    ensures VectorEnabled(seal, s1, rest) && LeadsTo(seal, s1, rest, sz + n, target)
  {
    WriteKeepsShape(seal, s, bufs[0]);
  }

  lemma {:induction false} FullVector(seal: Cipher, s: Sender, bufs: seq<seq<byte>>)
    requires Expands(seal) && s.maxFrag > 0 && VectorEnabled(seal, s, bufs) && Full(s)
    ensures WriteVectored(seal, s, bufs).1 == 0
    ensures WriteVectored(seal, s, bufs).0.accepted == s.accepted
    decreases |bufs|
  {
    if bufs != [] {
      ShortWriteFills(seal, s, bufs[0]);
      WriteKeepsShape(seal, s, bufs[0]);
      FullVector(seal, Write(seal, s, bufs[0]).0, bufs[1..]);
    }
  }

  lemma PrefixStep(before: seq<byte>, buf: seq<byte>, n: nat, rest: seq<byte>, k: nat)
    requires n <= |buf| && k <= |rest| && (n < |buf| ==> k == 0)
    ensures before + buf[..n] + rest[..k] == before + (buf + rest)[..n + k]
  {
    if n < |buf| {
      assert (buf + rest)[..n] == buf[..n];
    } else {
      assert (buf + rest)[..n + k] == buf + rest[..k];
    }
  }

  /** The count returned is the length of a prefix of the concatenated buffers, and exactly that prefix
      is accepted: nothing after a short buffer gets in. */
  lemma {:induction false} VectoredWriteTakesAPrefix(seal: Cipher, s: Sender, bufs: seq<seq<byte>>)
    requires Expands(seal) && s.maxFrag > 0 && VectorEnabled(seal, s, bufs)
    ensures
      var (s', n) := WriteVectored(seal, s, bufs);
      n <= |Flat(bufs)| && s'.accepted == s.accepted + Flat(bufs)[..n]
    decreases |bufs|
  {
    if bufs != [] {
      var (s1, n) := Write(seal, s, bufs[0]);
      WriteKeepsShape(seal, s, bufs[0]);
      VectoredWriteTakesAPrefix(seal, s1, bufs[1..]);
      if n < |bufs[0]| {
        ShortWriteFills(seal, s, bufs[0]);
        FullVector(seal, s1, bufs[1..]);
      }
      PrefixStep(s.accepted, bufs[0], n, Flat(bufs[1..]), WriteVectored(seal, s1, bufs[1..]).1);
    }
  }
}
