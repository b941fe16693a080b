/** The QUIC handshake queue and the point at which each set of keys is handed to the QUIC stack. */
module QuicQueue {
  import opened Prelude

  datatype Message = Message(mustEncrypt: bool, bytes: seq<byte>)

  datatype Secrets = Secrets(client: seq<byte>, server: seq<byte>)

  /** Keys are named by the secrets they are derived from. */
  datatype KeyChange = Handshake(keys: Secrets) | OneRtt(keys: Secrets, next: Secrets)

  datatype State = State(queue: seq<Message>, hs: Option<Secrets>, traffic: Option<Secrets>, returned: bool)

  const START := State([], None, None, false)

  /** The key-update derivation applied to both directions. */
  function Updated(s: Secrets, ratchet: seq<byte> -> seq<byte>): Secrets {
    Secrets(ratchet(s.client), ratchet(s.server))
  }

  function Bytes(ms: seq<Message>): seq<byte> {
    if ms == [] then [] else ms[0].bytes + Bytes(ms[1..])
  }

  lemma {:induction false} BytesAppend(a: seq<Message>, b: seq<Message>)
    ensures Bytes(a + b) == Bytes(a) + Bytes(b)
  {
    if a == [] {
      assert a + b == b;
    } else {
      assert (a + b)[1..] == a[1..] + b;
      BytesAppend(a[1..], b);
    }
  }

  lemma BytesPush(all: seq<Message>, k: nat)
    requires k < |all|
    ensures Bytes(all[..k + 1]) == Bytes(all[..k]) + all[k].bytes
  {
    var one := [all[k]];
    assert all[..k + 1] == all[..k] + one;
    BytesAppend(all[..k], one);
    assert Bytes(one) == all[k].bytes + Bytes(one[1..]) && one[1..] == [];
  }

  /** How many messages one call takes from the queue. */
  function Taken(queue: seq<Message>, pending: bool): (n: nat)
    ensures n <= |queue|
    ensures queue != [] ==> n > 0
  {
    if queue == [] then 0
    else if |queue| > 1 && queue[1].mustEncrypt && pending then 1
    else 1 + Taken(queue[1..], pending)
  }

  /** With handshake keys pending a call stops just before the first must-encrypt message behind the
      front one; otherwise it empties the queue. */
  lemma {:induction false} TakenMeaning(queue: seq<Message>, pending: bool)
    ensures !pending ==> Taken(queue, pending) == |queue|
    ensures forall i :: 0 < i < Taken(queue, pending) ==> !(pending && queue[i].mustEncrypt)
    ensures Taken(queue, pending) < |queue| ==> queue[Taken(queue, pending)].mustEncrypt
  {
    if queue != [] && !(|queue| > 1 && queue[1].mustEncrypt && pending) {
      var rest := queue[1..];
      TakenMeaning(rest, pending);
      forall i | 0 < i < Taken(queue, pending)
        ensures !(pending && queue[i].mustEncrypt)
      {
        assert queue[i] == rest[i - 1];
      }
    }
  }

  function ChangeOf(s: State, ratchet: seq<byte> -> seq<byte>): Option<KeyChange> {
    if s.hs.Some? then Some(Handshake(s.hs.value))
    else if s.traffic.Some? && !s.returned then Some(OneRtt(s.traffic.value, Updated(s.traffic.value, ratchet)))
    else None
  }

  function AfterWrite(s: State): State {
    var rest := s.queue[Taken(s.queue, s.hs.Some?)..];
    if s.hs.Some? then s.(queue := rest, hs := None)
    else State(rest, None, None, s.returned || s.traffic.Some?)
  }

  class Quic {
    var queue: seq<Message>
    var hs: Option<Secrets>
    var traffic: Option<Secrets>
    var returned: bool

    constructor ()
      ensures Now() == START
    {
      queue, hs, traffic, returned := [], None, None, false;
    }

    ghost function Now(): State
      reads this
    {
      State(queue, hs, traffic, returned)
    }

    /** The loop of `write_hs`. */
    method Drain(buf: seq<byte>) returns (out: seq<byte>)
      modifies this`queue
      ensures
        var n := Taken(old(queue), hs.Some?);
        queue == old(queue)[n..] && out == buf + Bytes(old(queue)[..n])
    {
      ghost var all, total := queue, Taken(queue, hs.Some?);
      ghost var k := 0;
      out := buf;
      while queue != []
        invariant 0 <= k <= |all| && queue == all[k..]
        invariant out == buf + Bytes(all[..k])
        invariant k + Taken(queue, hs.Some?) == total
        decreases |queue|
      {
        var msg := queue[0];
        BytesPush(all, k);
        queue := queue[1..];
        out := out + msg.bytes;
        k := k + 1;
        if queue != [] && queue[0].mustEncrypt && hs.Some? {
          break;
        }
      }
    }

    /** Appends the messages taken, in order, to the caller's buffer. */
    method WriteHs(buf: seq<byte>, ratchet: seq<byte> -> seq<byte>) returns (out: seq<byte>, change: Option<KeyChange>)
      modifies this
      ensures Now() == AfterWrite(old(Now()))
      ensures out == buf + Bytes(old(queue)[..Taken(old(queue), old(hs).Some?)])
      ensures change == ChangeOf(old(Now()), ratchet)
    {
      out := Drain(buf);
      if hs.Some? {
        change := Some(Handshake(hs.value));
        hs := None;
        return;
      }
      if traffic.Some? {
        var secrets := traffic.value;
        traffic := None;
        if !returned {
          returned := true;
          return out, Some(OneRtt(secrets, Updated(secrets, ratchet)));
        }
      }
      change := None;
    }
  }

  // ---- runs ----

  datatype Event = Push(m: Message) | DeriveHandshake(secrets: Secrets) | DeriveTraffic(secrets: Secrets) | Write

  /** What the QUIC stack sees, in order. */
  datatype Output = Sent(m: Message) | Keys(change: KeyChange)

  datatype Session = Session(now: State, pushed: seq<Message>, outputs: seq<Output>)

  const FIRST := Session(START, [], [])

  function Sends(ms: seq<Message>): (r: seq<Output>)
    ensures |r| == |ms| && forall i :: 0 <= i < |r| ==> r[i] == Sent(ms[i])
  {
    seq(|ms|, i requires 0 <= i < |ms| => Sent(ms[i]))
  }

  /** The outputs of one call: the messages it appends, then the key change it returns. */
  function Written(s: State, ratchet: seq<byte> -> seq<byte>): seq<Output> {
    Sends(s.queue[..Taken(s.queue, s.hs.Some?)]) +
    (if ChangeOf(s, ratchet).Some? then [Keys(ChangeOf(s, ratchet).value)] else [])
  }

  function Step(s: Session, e: Event, ratchet: seq<byte> -> seq<byte>): Session {
    match e
    case Push(m) => s.(now := s.now.(queue := s.now.queue + [m]), pushed := s.pushed + [m])
    case DeriveHandshake(secrets) => s.(now := s.now.(hs := Some(secrets)))
    case DeriveTraffic(secrets) => s.(now := s.now.(traffic := Some(secrets)))
    case Write => Session(AfterWrite(s.now), s.pushed, s.outputs + Written(s.now, ratchet))
  }

  function Run(events: seq<Event>, ratchet: seq<byte> -> seq<byte>): Session {
    if events == [] then FIRST
    else Step(Run(events[..|events| - 1], ratchet), events[|events| - 1], ratchet)
  }

  function Messages(outputs: seq<Output>): seq<Message> {
    if outputs == [] then []
    else (if outputs[0].Sent? then [outputs[0].m] else []) + Messages(outputs[1..])
  }

  lemma {:induction false} MessagesAppend(a: seq<Output>, b: seq<Output>)
    ensures Messages(a + b) == Messages(a) + Messages(b)
  {
    if a == [] {
      assert a + b == b;
    } else {
      assert (a + b)[1..] == a[1..] + b;
      MessagesAppend(a[1..], b);
      var head := if a[0].Sent? then [a[0].m] else [];
      assert head + (Messages(a[1..]) + Messages(b)) == head + Messages(a[1..]) + Messages(b);
    }
  }

  lemma {:induction false} MessagesSends(ms: seq<Message>)
    ensures Messages(Sends(ms)) == ms
  {
    if ms != [] {
      assert Sends(ms)[1..] == Sends(ms[1..]);
      MessagesSends(ms[1..]);
    }
  }

  lemma MessagesWritten(s: State, ratchet: seq<byte> -> seq<byte>)
    ensures Messages(Written(s, ratchet)) == s.queue[..Taken(s.queue, s.hs.Some?)]
  {
    var ms := s.queue[..Taken(s.queue, s.hs.Some?)];
    var tail := if ChangeOf(s, ratchet).Some? then [Keys(ChangeOf(s, ratchet).value)] else [];
    MessagesAppend(Sends(ms), tail);
    MessagesSends(ms);
    assert Messages(tail) == [];
  }

  lemma WriteLosesNothing(s: Session, ratchet: seq<byte> -> seq<byte>)
    ensures
      var after := Step(s, Write, ratchet);
      Messages(after.outputs) + after.now.queue == Messages(s.outputs) + s.now.queue
  {
    var queue, n := s.now.queue, Taken(s.now.queue, s.now.hs.Some?);
    MessagesAppend(s.outputs, Written(s.now, ratchet));
    MessagesWritten(s.now, ratchet);
    assert Messages(s.outputs) + queue[..n] + queue[n..] == Messages(s.outputs) + queue;
  }

  /** Nothing pushed is lost, repeated or reordered, in any run. */
  lemma {:induction false} NothingLost(events: seq<Event>, ratchet: seq<byte> -> seq<byte>)
    ensures
      var s := Run(events, ratchet);
      Messages(s.outputs) + s.now.queue == s.pushed
  {
    if events != [] {
      var s, e := Run(events[..|events| - 1], ratchet), events[|events| - 1];
      NothingLost(events[..|events| - 1], ratchet);
      if e.Push? {
        assert Messages(s.outputs) + (s.now.queue + [e.m]) == s.pushed + [e.m];
      } else if e.Write? {
        WriteLosesNothing(s, ratchet);
      }
    }
  }

  function OneRtts(outputs: seq<Output>): nat {
    if outputs == [] then 0
    else (if outputs[0].Keys? && outputs[0].change.OneRtt? then 1 else 0) + OneRtts(outputs[1..])
  }

  lemma {:induction false} OneRttsAppend(a: seq<Output>, b: seq<Output>)
    ensures OneRtts(a + b) == OneRtts(a) + OneRtts(b)
  {
    if a == [] {
      assert a + b == b;
    } else {
      assert (a + b)[1..] == a[1..] + b;
      OneRttsAppend(a[1..], b);
    }
  }

  lemma {:induction false} OneRttsSends(ms: seq<Message>)
    ensures OneRtts(Sends(ms)) == 0
  {
    if ms != [] {
      assert Sends(ms)[1..] == Sends(ms[1..]);
      OneRttsSends(ms[1..]);
    }
  }

  lemma OneRttsWritten(s: State, ratchet: seq<byte> -> seq<byte>)
    ensures OneRtts(Written(s, ratchet)) == if !s.returned && AfterWrite(s).returned then 1 else 0
  {
    var ms := s.queue[..Taken(s.queue, s.hs.Some?)];
    var tail := if ChangeOf(s, ratchet).Some? then [Keys(ChangeOf(s, ratchet).value)] else [];
    OneRttsAppend(Sends(ms), tail);
    OneRttsSends(ms);
  }

  lemma OneRttsStep(s: Session, ratchet: seq<byte> -> seq<byte>)
    requires OneRtts(s.outputs) == if s.now.returned then 1 else 0
    ensures
      var after := Step(s, Write, ratchet);
      OneRtts(after.outputs) == if after.now.returned then 1 else 0
  {
    OneRttsAppend(s.outputs, Written(s.now, ratchet));
    OneRttsWritten(s.now, ratchet);
  }

  /** 1-RTT keys leave at most once, however often traffic secrets are derived. */
  lemma {:induction false} OneRttOnce(events: seq<Event>, ratchet: seq<byte> -> seq<byte>)
    ensures
      var s := Run(events, ratchet);
      OneRtts(s.outputs) == if s.now.returned then 1 else 0
  {
    if events != [] {
      var s, e := Run(events[..|events| - 1], ratchet), events[|events| - 1];
      OneRttOnce(events[..|events| - 1], ratchet);
      if e.Write? {
        OneRttsStep(s, ratchet);
      }
    }
  }

  /** The call that returns 1-RTT keys has written every message pushed so far. */
  lemma OneRttLeavesNothingQueued(events: seq<Event>, ratchet: seq<byte> -> seq<byte>)
    requires ChangeOf(Run(events, ratchet).now, ratchet).Some?
    requires ChangeOf(Run(events, ratchet).now, ratchet).value.OneRtt?
    ensures
      var s := Step(Run(events, ratchet), Write, ratchet);
      s.now.queue == [] && Messages(s.outputs) == s.pushed
  {
    var s := Run(events, ratchet);
    TakenMeaning(s.now.queue, false);
    var more := events + [Write];
    assert more[..|more| - 1] == events;
    NothingLost(more, ratchet);
  }

  /** The secrets derived last. */
  function LastTraffic(events: seq<Event>): Option<Secrets> {
    if events == [] then None
    else if events[|events| - 1].DeriveTraffic? then Some(events[|events| - 1].secrets)
    else LastTraffic(events[..|events| - 1])
  }

  function LastHandshake(events: seq<Event>): Option<Secrets> {
    if events == [] then None
    else if events[|events| - 1].DeriveHandshake? then Some(events[|events| - 1].secrets)
    else LastHandshake(events[..|events| - 1])
  }

  lemma {:induction false} PendingAreLast(events: seq<Event>, ratchet: seq<byte> -> seq<byte>)
    ensures
      var s := Run(events, ratchet).now;
      && (s.traffic.Some? ==> s.traffic == LastTraffic(events))
      && (s.hs.Some? ==> s.hs == LastHandshake(events))
  {
    if events != [] {
      PendingAreLast(events[..|events| - 1], ratchet);
    }
  }

  /** Handshake keys are those of the handshake secrets derived last. 1-RTT keys are those of the traffic
      secrets derived last, and come with the secrets one update on, in each direction. */
  lemma KeysAreTheLatest(events: seq<Event>, ratchet: seq<byte> -> seq<byte>)
    ensures
      var change := ChangeOf(Run(events, ratchet).now, ratchet);
      change.Some? ==>
        match change.value
        case Handshake(keys) => Some(keys) == LastHandshake(events)
        case OneRtt(keys, next) =>
          Some(keys) == LastTraffic(events) && next == Secrets(ratchet(keys.client), ratchet(keys.server))
  {
    PendingAreLast(events, ratchet);
  }

  /** A call returns handshake keys exactly when some are pending, and 1-RTT keys exactly when no handshake keys
      are and these are pending for the first time. */
  lemma ChangeIff(s: State, ratchet: seq<byte> -> seq<byte>)
    ensures
      var change := ChangeOf(s, ratchet);
      && (change.Some? && change.value.Handshake? <==> s.hs.Some?)
      && (change.Some? && change.value.OneRtt? <==> s.hs.None? && s.traffic.Some? && !s.returned)
  {
  }

  predicate KeysOut(outputs: seq<Output>) {
    exists j :: 0 <= j < |outputs| && outputs[j].Keys? && outputs[j].change.Handshake?
  }

  /** No must-encrypt message precedes the handshake keys. */
  predicate Protected(outputs: seq<Output>) {
    forall i :: 0 <= i < |outputs| && outputs[i].Sent? && outputs[i].m.mustEncrypt ==> KeysOut(outputs[..i])
  }

  lemma KeysOutPrefix(outputs: seq<Output>, i: nat)
    requires i <= |outputs| && KeysOut(outputs[..i])
    ensures KeysOut(outputs)
  {
    var j :| 0 <= j < i && outputs[..i][j].Keys? && outputs[..i][j].change.Handshake?;
    assert outputs[j] == outputs[..i][j];
  }

  /** Whether a call made now sends nothing too early. */
  predicate Careful(s: Session) {
    || KeysOut(s.outputs)
    || if s.now.hs.Some? then s.now.queue == [] || !s.now.queue[0].mustEncrypt
       else forall m <- s.now.queue :: !m.mustEncrypt
  }

  lemma TakenPlainIffCareful(s: Session)
    requires !KeysOut(s.outputs)
    ensures
      var ms := s.now.queue[..Taken(s.now.queue, s.now.hs.Some?)];
      (forall i :: 0 <= i < |ms| ==> !ms[i].mustEncrypt) <==> Careful(s)
  {
    TakenMeaning(s.now.queue, s.now.hs.Some?);
    var queue := s.now.queue;
    var ms := queue[..Taken(queue, s.now.hs.Some?)];
    if s.now.hs.None? {
      assert ms == queue;
    } else if queue != [] {
      assert ms[0] == queue[0];
    }
  }

  /** Sends behind a prefix without keys keep the protection exactly when none is must-encrypt. */
  lemma ProtectedWritten(before: seq<Output>, ms: seq<Message>, tail: seq<Output>)
    requires forall i :: 0 <= i < |tail| ==> tail[i].Keys?
    ensures
      var all := before + (Sends(ms) + tail);
      Protected(all) <==>
      Protected(before) && (KeysOut(before) || forall i :: 0 <= i < |ms| ==> !ms[i].mustEncrypt)
  {
    var all := before + (Sends(ms) + tail);
    forall i | 0 <= i < |before|
      ensures all[..i] == before[..i]
    {
    }
    forall i | 0 <= i < |ms|
      ensures all[|before| + i] == Sent(ms[i])
      ensures KeysOut(all[..|before| + i]) <==> KeysOut(before)
    {
      var part := all[..|before| + i];
      assert part[..|before|] == before;
      if KeysOut(before) {
        KeysOutPrefix(part, |before|);
      }
      if KeysOut(part) {
        var j :| 0 <= j < |part| && part[j].Keys? && part[j].change.Handshake?;
        assert j < |before| && before[j] == part[j];
      }
    }
    if Protected(all) {
      forall i | 0 <= i < |before| && before[i].Sent? && before[i].m.mustEncrypt
        ensures KeysOut(before[..i])
      {
        assert all[i] == before[i];
      }
      forall i | 0 <= i < |ms| && ms[i].mustEncrypt
        ensures KeysOut(before)
      {
        assert all[|before| + i] == Sent(ms[i]);
      }
    }
  }

  /** Every call of the run is made in a careful state. */
  predicate CarefulRun(events: seq<Event>, ratchet: seq<byte> -> seq<byte>) {
    events != [] ==>
      && CarefulRun(events[..|events| - 1], ratchet)
      && (events[|events| - 1].Write? ==> Careful(Run(events[..|events| - 1], ratchet)))
  }

  /** A run keeps must-encrypt messages behind the handshake keys exactly when every call is careful. */
  lemma {:induction false} ProtectedIffCareful(events: seq<Event>, ratchet: seq<byte> -> seq<byte>)
    ensures Protected(Run(events, ratchet).outputs) <==> CarefulRun(events, ratchet)
  {
    if events != [] {
      var s, e := Run(events[..|events| - 1], ratchet), events[|events| - 1];
      ProtectedIffCareful(events[..|events| - 1], ratchet);
      if e.Write? {
        var ms := s.now.queue[..Taken(s.now.queue, s.now.hs.Some?)];
        var tail := if ChangeOf(s.now, ratchet).Some? then [Keys(ChangeOf(s.now, ratchet).value)] else [];
        ProtectedWritten(s.outputs, ms, tail);
        if !KeysOut(s.outputs) {
          TakenPlainIffCareful(s);
        }
      }
    }
  }

  /** Must-encrypt messages are pushed only once handshake secrets exist. */
  predicate SecretsFirst(events: seq<Event>, ratchet: seq<byte> -> seq<byte>) {
    events != [] ==>
      && SecretsFirst(events[..|events| - 1], ratchet)
      && (events[|events| - 1].Push? && events[|events| - 1].m.mustEncrypt ==>
            var s := Run(events[..|events| - 1], ratchet);
            s.now.hs.Some? || KeysOut(s.outputs))
  }

  /** No call finds a must-encrypt message at the front while the first handshake keys are pending. */
  predicate FrontClear(events: seq<Event>, ratchet: seq<byte> -> seq<byte>) {
    events != [] ==>
      && FrontClear(events[..|events| - 1], ratchet)
      && (events[|events| - 1].Write? ==>
            var s := Run(events[..|events| - 1], ratchet);
            !(s.now.hs.Some? && !KeysOut(s.outputs) && s.now.queue != [] && s.now.queue[0].mustEncrypt))
  }

  lemma {:induction false} PlainBeforeSecrets(events: seq<Event>, ratchet: seq<byte> -> seq<byte>)
    requires SecretsFirst(events, ratchet)
    ensures
      var s := Run(events, ratchet);
      s.now.hs.None? && !KeysOut(s.outputs) ==> forall m <- s.now.queue :: !m.mustEncrypt
  {
    if events != [] {
      var s, e := Run(events[..|events| - 1], ratchet), events[|events| - 1];
      PlainBeforeSecrets(events[..|events| - 1], ratchet);
      if e.Write? {
        var after := Step(s, e, ratchet).outputs;
        if KeysOut(s.outputs) {
          assert after[..|s.outputs|] == s.outputs;
          KeysOutPrefix(after, |s.outputs|);
        } else if s.now.hs.Some? {
          assert after[|after| - 1] == Keys(Handshake(s.now.hs.value));
        }
      }
    }
  }

  lemma {:induction false} FrontClearIffCareful(events: seq<Event>, ratchet: seq<byte> -> seq<byte>)
    requires SecretsFirst(events, ratchet)
    ensures FrontClear(events, ratchet) <==> CarefulRun(events, ratchet)
  {
    if events != [] {
      FrontClearIffCareful(events[..|events| - 1], ratchet);
      PlainBeforeSecrets(events[..|events| - 1], ratchet);
    }
  }

  /** Section 4.1.4 of RFC 9001: in a run whose must-encrypt messages follow the secrets, none leaves
      before the handshake keys exactly when no call finds one at the front with those keys pending. */
  lemma KeysBeforeProtectedMessages(events: seq<Event>, ratchet: seq<byte> -> seq<byte>)
    requires SecretsFirst(events, ratchet)
    ensures Protected(Run(events, ratchet).outputs) <==> FrontClear(events, ratchet)
  {
    ProtectedIffCareful(events, ratchet);
    FrontClearIffCareful(events, ratchet);
  }

  /** A caller that feeds handshake data before it has taken the handshake keys makes the client write its
      Finished message ahead of them. */
  lemma FinishedAheadOfKeys(secrets: Secrets, finished: seq<byte>, ratchet: seq<byte> -> seq<byte>)
    ensures
      var events := [DeriveHandshake(secrets), Push(Message(true, finished)), Write];
      && SecretsFirst(events, ratchet)
      && Run(events, ratchet).outputs == [Sent(Message(true, finished)), Keys(Handshake(secrets))]
      && !Protected(Run(events, ratchet).outputs)
  {
    var m := Message(true, finished);
    var derive: Event, push: Event := DeriveHandshake(secrets), Push(m);
    var events := [derive, push, Write];
    assert events[..2] == [derive, push] && [derive, push][..1] == [derive] && [derive][..0] == [];
    assert Run([derive], ratchet) == Step(FIRST, derive, ratchet);
    var s := Run([derive, push], ratchet);
    assert s == Step(Run([derive], ratchet), push, ratchet);
    assert s.now.queue == [m];
    assert SecretsFirst([derive], ratchet) && SecretsFirst([derive, push], ratchet);
    assert Taken([m], true) == 1 && [m][..1] == [m];
    var outputs := Run(events, ratchet).outputs;
    assert outputs == s.outputs + Written(s.now, ratchet) == [Sent(m), Keys(Handshake(secrets))];
    assert outputs[0].m.mustEncrypt && outputs[..0] == [];
  }
}
