/** Processing of received packets: the loop that pulls messages from the deframer and hands them to the
    protocol state, the latch that keeps the first error, and the fatal alerts it sends. What the
    deframer yields is an input; the protocol's handlers are any function. */
module ConnCore {
  import opened Prelude

  const TLS13_MAX_DROPPED_CCS := 2

  type State = nat

  datatype Error =
    | HandshakeNotComplete
    | InvalidMessage(what: nat)
    | PeerSentOversizedRecord
    | DecryptError
    | AlertReceived(description: nat)
    | PeerMisbehaved(what: nat)
    | Inappropriate(what: nat)
    | Other(what: nat)

  datatype Level = Warning | Fatal | UnknownLevel

  const CLOSE_NOTIFY: nat := 0x00
  const USER_CANCELED: nat := 0x5a
  const ILLEGAL_CCS: nat := 0

  /** A message from the deframer: its content type with what the code inspects of it. `renegotiation`
      says that a handshake message is the kind this side rejects after the handshake. */
  datatype Message =
    | ChangeCipherSpec(valid: bool)
    | Undecodable(why: nat)
    | Alert(level: Level, description: nat)
    | Payload(renegotiation: bool, body: nat)

  /** One answer of the deframer; the end of the list is its "nothing more yet". */
  datatype Pop = Popped(message: Message) | PopFailed(error: Error)

  /** `ccs` counts dropped ChangeCipherSpec messages and `fatals` the calls of `send_fatal_alert`. */
  datatype Common = Common(
    tls13: bool, mayReceive: bool, quic: bool, closed: bool, ccs: nat, warnings: nat, fatals: nat)

  /** A handler may change the negotiated flags and send fatal alerts. */
  datatype Handled = Handled(tls13: bool, mayReceive: bool, fatals: nat, result: Result<State, Error>)

  type Handler = (State, nat, Common) -> Handled

  /** Handlers that send at most one fatal alert, only with an error, and leave the alert for an
      inappropriate message to their caller. */
  ghost predicate WellBehaved(h: Handler) {
    forall st, body, c ::
      var r := h(st, body, c);
      r.fatals <= 1 && (r.fatals == 1 ==> r.result.Err? && !r.result.error.Inappropriate?)
  }

  function FatalAlert(c: Common): Common {
    c.(fatals := c.fatals + 1)
  }

  function ProcessAlert(c: Common, level: Level, description: nat): (Common, Option<Error>) {
    var err := AlertReceived(description);
    if level.UnknownLevel? then (FatalAlert(c), Some(err))
    else if description == CLOSE_NOTIFY then (c.(closed := true), None)
    else if level.Warning? then
      if c.tls13 && description != USER_CANCELED then (FatalAlert(c), Some(err)) else (c, None)
    else (c, Some(err))
  }

  function ProcessMsg(h: Handler, c: Common, st: State, msg: Message): (Common, Result<State, Error>) {
    if msg.ChangeCipherSpec? && !c.mayReceive && c.tls13 then
      if !msg.valid || c.ccs > TLS13_MAX_DROPPED_CCS then (FatalAlert(c), Err(PeerMisbehaved(ILLEGAL_CCS)))
      else (c.(ccs := c.ccs + 1), Ok(st))
    else if msg.Undecodable? then (FatalAlert(c), Err(InvalidMessage(msg.why)))
    else if msg.Alert? then
      var (c', err) := ProcessAlert(c, msg.level, msg.description);
      (c', if err.Some? then Err(err.value) else Ok(st))
    else if c.mayReceive && !c.tls13 && msg.Payload? && msg.renegotiation then
      (c.(warnings := c.warnings + 1), Ok(st))
    else
      var r := h(st, if msg.Payload? then msg.body else 0, c);
      var c' := c.(tls13 := r.tls13, mayReceive := r.mayReceive, fatals := c.fatals + r.fatals);
      if r.result.Err? && r.result.error.Inappropriate? then (FatalAlert(c'), r.result) else (c', r.result)
  }

  /** `deframe` on a failing pop: some errors are announced to the peer. */
  function DeframeFailed(c: Common, e: Error): Common {
    if e.InvalidMessage? then (if c.quic then c else FatalAlert(c))
    else if e.PeerSentOversizedRecord? || e.DecryptError? then FatalAlert(c)
    else c
  }

  datatype Core = Core(state: Result<State, Error>, common: Common)

  /** What a call did: its error, if any, and how many deframer answers it used. */
  datatype Outcome = Outcome(core: Core, error: Option<Error>, popped: nat)

  /** The loop of `process_new_packets` from a live protocol state. */
  function Loop(h: Handler, c: Common, st: State, pops: seq<Pop>): Outcome
    decreases |pops|
  {
    if pops == [] then Outcome(Core(Ok(st), c), None, 0)
    else match pops[0]
      case PopFailed(e) => Outcome(Core(Err(HandshakeNotComplete), DeframeFailed(c, e)), Some(e), 1)
      case Popped(m) =>
        var (c', r) := ProcessMsg(h, c, st, m);
        match r
        case Err(e) => Outcome(Core(Err(e), c'), Some(e), 1)
        case Ok(st') =>
          var rest := Loop(h, c', st', pops[1..]);
          rest.(popped := rest.popped + 1)
  }

  function Process(h: Handler, core: Core, pops: seq<Pop>): Outcome {
    match core.state
    case Ok(st) => Loop(h, core.common, st, pops)
    case Err(e) => Outcome(core, Some(e), 0)
  }

  class ConnectionCore {
    const handler: Handler
    var state: Result<State, Error>
    var common: Common

    constructor (handler: Handler, st: State, common: Common)
      ensures this.handler == handler && Now() == Core(Ok(st), common)
    {
      this.handler := handler;
      state, this.common := Ok(st), common;
    }

    ghost function Now(): Core
      reads this
    {
      Core(state, common)
    }

    method ProcessNewPackets(pops: seq<Pop>) returns (error: Option<Error>, popped: nat)
      modifies this
      ensures Outcome(Now(), error, popped) == Process(handler, old(Now()), pops)
    {
      popped := 0;
      var taken := state;
      state := Err(HandshakeNotComplete);
      if taken.Err? {
        state := taken;
        return Some(taken.error), 0;
      }
      var st := taken.value;
      ghost var whole := Loop(handler, common, st, pops);
      while popped < |pops|
        invariant popped <= |pops| && state == Err(HandshakeNotComplete)
        invariant
          var rest := Loop(handler, common, st, pops[popped..]);
          rest.(popped := rest.popped + popped) == whole
      {
        assert pops[popped..][0] == pops[popped] && pops[popped..][1..] == pops[popped + 1..];
        var pop := pops[popped];
        popped := popped + 1;
        if pop.PopFailed? {
          common := DeframeFailed(common, pop.error);
          return Some(pop.error), popped;
        }
        var (c, r) := ProcessMsg(handler, common, st, pop.message);
        common := c;
        if r.Err? {
          state := r;
          return Some(r.error), popped;
        }
        st := r.value;
      }
      state := Ok(st);
      error := None;
    }
  }

  // ---- the latch ----

  /** The error was raised by the deframer, not by the processing of a message. */
  predicate FromDeframer(pops: seq<Pop>, o: Outcome) {
    0 < o.popped <= |pops| && pops[o.popped - 1].PopFailed?
  }

  lemma {:induction false} LoopError(h: Handler, c: Common, st: State, pops: seq<Pop>)
    ensures
      var o := Loop(h, c, st, pops);
      && o.popped <= |pops|
      && (o.error.Some? <==> o.core.state.Err?)
      && (o.error.Some? ==> o.popped > 0)
      && (o.error.Some? && FromDeframer(pops, o) ==>
            o.core.state == Err(HandshakeNotComplete) && pops[o.popped - 1].error == o.error.value)
      && (o.error.Some? && !FromDeframer(pops, o) ==> o.core.state.error == o.error.value)
    decreases |pops|
  {
    if pops != [] && pops[0].Popped? {
      var (c', r) := ProcessMsg(h, c, st, pops[0].message);
      if r.Ok? {
        LoopError(h, c', r.value, pops[1..]);
      }
    }
  }

  /** Whatever is received later, a latched connection answers with its latched error, uses no deframer
      answer, runs no handler and sends nothing. */
  lemma {:induction false} LatchedForever(h: Handler, core: Core, calls: seq<seq<Pop>>, last: Outcome)
    requires core.state.Err? && calls != [] && last == Calls(h, core, calls)
    ensures last == Outcome(core, Some(core.state.error), 0)
    decreases |calls|
  {
    if |calls| > 1 {
      LatchedForever(h, core, calls[1..], last);
    }
  }

  /** The outcome of the last of several calls. */
  function Calls(h: Handler, core: Core, calls: seq<seq<Pop>>): Outcome
    requires calls != []
    decreases |calls|
  {
    var o := Process(h, core, calls[0]);
    if |calls| == 1 then o else Calls(h, o.core, calls[1..])
  }

  /** The documentation says that calls after an error return the same error. They do exactly when the
      error did not come from the deframer, or was the placeholder itself. */
  lemma SameErrorIff(h: Handler, core: Core, pops: seq<Pop>, later: seq<seq<Pop>>)
    requires core.state.Ok? && Process(h, core, pops).error.Some? && later != []
    ensures
      var first := Process(h, core, pops);
      var last := Calls(h, first.core, later);
      && last.error.Some? && last.popped == 0 && last.core == first.core
      && (last.error == first.error <==> !FromDeframer(pops, first) || first.error == Some(HandshakeNotComplete))
  {
    var first := Process(h, core, pops);
    LoopError(h, core.common, core.state.value, pops);
    LatchedForever(h, first.core, later, Calls(h, first.core, later));
  }

  // ---- what each message does ----

  /** An alert ends the connection, with its description as the error, exactly when its level is unknown, or it
      is not close-notify and is fatal, or it is a TLS 1.3 warning other than close-notify and user-canceled.
      An unknown level and such a warning are answered with a fatal alert. A close-notify of known level is
      noted. Nothing else changes. */
  lemma AlertMeaning(h: Handler, c: Common, st: State, level: Level, description: nat)
    ensures
      var (c', r) := ProcessMsg(h, c, st, Alert(level, description));
      var outlawed := level.Warning? && c.tls13 && description != 0 && description != 90;
      && r == (if level.UnknownLevel? || outlawed || (level.Fatal? && description != 0)
               then Err(AlertReceived(description)) else Ok(st))
      && c' == c.(closed := c.closed || (!level.UnknownLevel? && description == 0),
                  fatals := c.fatals + if level.UnknownLevel? || outlawed then 1 else 0)
  {
  }

  /** A payload goes to the handler, whose answer is the result, unless it asks for renegotiation on an
      established TLS 1.2 connection, which is only warned about. An inappropriate message costs one more
      fatal alert than the handler sends. */
  lemma PayloadMeaning(h: Handler, c: Common, st: State, renegotiation: bool, body: nat)
    ensures
      var (c', r) := ProcessMsg(h, c, st, Payload(renegotiation, body));
      if renegotiation && c.mayReceive && !c.tls13 then r == Ok(st) && c' == c.(warnings := c.warnings + 1)
      else
        var a := h(st, body, c);
        && r == a.result
        && c' == c.(tls13 := a.tls13, mayReceive := a.mayReceive,
                    fatals := c.fatals + a.fatals + if a.result.Err? && a.result.error.Inappropriate? then 1 else 0)
  {
  }

  /** A message that does not decode is a fatal alert and an error. */
  lemma UndecodableMeaning(h: Handler, c: Common, st: State, why: nat)
    ensures ProcessMsg(h, c, st, Undecodable(why)) == (c.(fatals := c.fatals + 1), Err(InvalidMessage(why)))
  {
  }

  /** A ChangeCipherSpec message before application data in TLS 1.3 is dropped and counted if it is valid and at
      most two were dropped before, and is fatal otherwise. At any other time it goes to the handler. */
  lemma CcsMeaning(h: Handler, c: Common, st: State, valid: bool)
    ensures
      var (c', r) := ProcessMsg(h, c, st, ChangeCipherSpec(valid));
      if c.tls13 && !c.mayReceive then
        if valid && c.ccs <= 2 then r == Ok(st) && c' == c.(ccs := c.ccs + 1)
        else r == Err(PeerMisbehaved(0)) && c' == c.(fatals := c.fatals + 1)
      else r == h(st, 0, c).result && c'.ccs == c.ccs
  {
  }

  /** An error of the deframer is announced exactly for invalid messages (not on QUIC), oversized records and
      records that do not decrypt. */
  lemma DeframeMeaning(h: Handler, c: Common, st: State, e: Error, rest: seq<Pop>)
    ensures
      var o := Loop(h, c, st, [PopFailed(e)] + rest);
      var announced := (e.InvalidMessage? && !c.quic) || e.PeerSentOversizedRecord? || e.DecryptError?;
      && o.error == Some(e) && o.popped == 1
      && o.core.common == c.(fatals := c.fatals + if announced then 1 else 0)
  {
    assert ([PopFailed(e)] + rest)[0] == PopFailed(e);
  }

  lemma {:induction false} LoopAppend(h: Handler, c: Common, st: State, before: seq<Pop>, rest: seq<Pop>)
    requires Loop(h, c, st, before).error.None?
    ensures
      var o := Loop(h, c, st, before);
      && o.popped == |before| && o.core.state.Ok?
      && var more := Loop(h, o.core.common, o.core.state.value, rest);
         Loop(h, c, st, before + rest) == more.(popped := |before| + more.popped)
    decreases |before|
  {
    if before == [] {
      assert before + rest == rest;
    } else {
      assert (before + rest)[0] == before[0] && (before + rest)[1..] == before[1..] + rest;
      var (c', r) := ProcessMsg(h, c, st, before[0].message);
      LoopAppend(h, c', r.value, before[1..], rest);
    }
  }

  /** Wherever a fatal alert other than close-notify arrives, processing stops there with its description, and
      every later call returns that same error. */
  lemma FatalAlertEnds(
      h: Handler, core: Core, before: seq<Pop>, description: nat, rest: seq<Pop>, later: seq<seq<Pop>>)
    requires core.state.Ok? && Process(h, core, before).error.None? && description != 0
    ensures
      var first := Process(h, core, before + ([Popped(Alert(Fatal, description))] + rest));
      && first.error == Some(AlertReceived(description)) && first.popped == |before| + 1
      && first.core.common == Process(h, core, before).core.common
      && (later != [] ==> Calls(h, first.core, later) == Outcome(first.core, Some(AlertReceived(description)), 0))
  {
    var tail := [Popped(Alert(Fatal, description))] + rest;
    var o := Process(h, core, before);
    LoopAppend(h, core.common, core.state.value, before, tail);
    assert tail[0] == Popped(Alert(Fatal, description));
    AlertMeaning(h, o.core.common, o.core.state.value, Fatal, description);
    var first := Process(h, core, before + tail);
    if later != [] {
      LatchedForever(h, first.core, later, Calls(h, first.core, later));
    }
  }

  predicate IsCloseNotify(p: Pop) {
    p.Popped? && p.message.Alert? && !p.message.level.UnknownLevel? && p.message.description == 0
  }

  /** The end of the peer's data is noted exactly when a close-notify of known level was processed. */
  lemma {:induction false} ClosedIff(h: Handler, c: Common, st: State, pops: seq<Pop>)
    ensures
      var o := Loop(h, c, st, pops);
      && o.popped <= |pops|
      && (o.core.common.closed <==> c.closed || exists p <- pops[..o.popped] :: IsCloseNotify(p))
    decreases |pops|
  {
    if pops != [] {
      var o := Loop(h, c, st, pops);
      assert pops == [pops[0]] + pops[1..];
      if pops[0].Popped? {
        var (c', r) := ProcessMsg(h, c, st, pops[0].message);
        assert c'.closed <==> c.closed || IsCloseNotify(pops[0]);
        if r.Ok? {
          ClosedIff(h, c', r.value, pops[1..]);
          assert pops[..o.popped] == [pops[0]] + pops[1..][..o.popped - 1];
        } else {
          assert pops[..1] == [pops[0]];
        }
      } else {
        assert pops[..1] == [pops[0]];
      }
    }
  }

  // ---- alerts ----

  /** A live connection has sent no fatal alert, a failed one at most one. */
  predicate Quiet(core: Core) {
    core.common.fatals <= (if core.state.Ok? then 0 else 1)
  }

  lemma {:induction false} LoopQuiet(h: Handler, c: Common, st: State, pops: seq<Pop>)
    requires WellBehaved(h) && c.fatals == 0
    ensures Quiet(Loop(h, c, st, pops).core)
    decreases |pops|
  {
    if pops != [] && pops[0].Popped? {
      var m := pops[0].message;
      var (c', r) := ProcessMsg(h, c, st, m);
      var handled := h(st, if m.Payload? then m.body else 0, c);
      assert handled.fatals <= 1 && (handled.fatals == 1 ==> handled.result.Err? && !handled.result.error.Inappropriate?);
      if r.Ok? {
        LoopQuiet(h, c', r.value, pops[1..]);
      }
    }
  }

  /** Over any sequence of calls at most one fatal alert is ever sent. */
  lemma {:induction false} AtMostOneFatalAlert(h: Handler, core: Core, calls: seq<seq<Pop>>)
    requires WellBehaved(h) && Quiet(core) && calls != []
    ensures Quiet(Calls(h, core, calls).core)
    decreases |calls|
  {
    var o := Process(h, core, calls[0]);
    if core.state.Ok? {
      LoopQuiet(h, core.common, core.state.value, calls[0]);
    }
    if |calls| > 1 {
      AtMostOneFatalAlert(h, o.core, calls[1..]);
    }
  }

  /** A handler that announces an inappropriate message itself makes the connection send two. */
  lemma EagerHandlerSendsTwo(h: Handler, c: Common, st: State, body: nat)
    requires c.fatals == 0 && h(st, body, c).fatals == 1
    ensures ProcessMsg(h, c, st, Payload(false, body)).0.fatals == 2 <==>
            h(st, body, c).result.Err? && h(st, body, c).result.error.Inappropriate?
  {
  }

  // ---- dropped ChangeCipherSpec messages ----

  /** The counter tolerates one message more than the named maximum and then never moves, so the `u8`
      that holds it cannot overflow. */
  lemma {:induction false} DroppedCcsBounded(h: Handler, core: Core, calls: seq<seq<Pop>>)
    requires core.common.ccs <= TLS13_MAX_DROPPED_CCS + 1 && calls != []
    ensures Calls(h, core, calls).core.common.ccs <= TLS13_MAX_DROPPED_CCS + 1
    decreases |calls|
  {
    var o := Process(h, core, calls[0]);
    if core.state.Ok? {
      LoopCcs(h, core.common, core.state.value, calls[0]);
    }
    if |calls| > 1 {
      DroppedCcsBounded(h, o.core, calls[1..]);
    }
  }

  lemma {:induction false} LoopCcs(h: Handler, c: Common, st: State, pops: seq<Pop>)
    requires c.ccs <= TLS13_MAX_DROPPED_CCS + 1
    ensures Loop(h, c, st, pops).core.common.ccs <= TLS13_MAX_DROPPED_CCS + 1
    decreases |pops|
  {
    if pops != [] && pops[0].Popped? {
      var (c', r) := ProcessMsg(h, c, st, pops[0].message);
      if r.Ok? {
        LoopCcs(h, c', r.value, pops[1..]);
      }
    }
  }

  function ManyCcs(k: nat): seq<Pop> {
    seq(k, _ => Popped(ChangeCipherSpec(true)))
  }

  /** Of `k` valid ChangeCipherSpec messages in a row during a TLS 1.3 handshake all are dropped exactly when
      the counter and `k` together are at most one more than the named maximum; otherwise the first beyond
      that is fatal. */
  lemma {:induction false} CcsDroppedIff(h: Handler, c: Common, st: State, k: nat)
    requires c.tls13 && !c.mayReceive && c.ccs <= TLS13_MAX_DROPPED_CCS + 1
    ensures Loop(h, c, st, ManyCcs(k)) ==
            if c.ccs + k <= TLS13_MAX_DROPPED_CCS + 1 then Outcome(Core(Ok(st), c.(ccs := c.ccs + k)), None, k)
            else
              var e := PeerMisbehaved(ILLEGAL_CCS);
              Outcome(Core(Err(e), FatalAlert(c.(ccs := TLS13_MAX_DROPPED_CCS + 1))), Some(e),
                      TLS13_MAX_DROPPED_CCS + 2 - c.ccs)
    decreases k
  {
    if k > 0 {
      assert ManyCcs(k)[0] == Popped(ChangeCipherSpec(true)) && ManyCcs(k)[1..] == ManyCcs(k - 1);
      if c.ccs <= TLS13_MAX_DROPPED_CCS {
        CcsDroppedIff(h, c.(ccs := c.ccs + 1), st, k - 1);
      }
    }
  }

  /** So no more than the named maximum are dropped exactly when no more than that arrive. */
  lemma NamedMaximumKeptIff(h: Handler, c: Common, st: State, k: nat)
    requires c.tls13 && !c.mayReceive && c.ccs <= TLS13_MAX_DROPPED_CCS
    ensures Loop(h, c, st, ManyCcs(k)).core.common.ccs <= TLS13_MAX_DROPPED_CCS <==>
            c.ccs + k <= TLS13_MAX_DROPPED_CCS
  {
    CcsDroppedIff(h, c, st, k);
  }

  /** Three are dropped without an error, where the constant says two. */
  lemma ThreeCcsDropped(h: Handler, c: Common, st: State)
    requires c.tls13 && !c.mayReceive && c.ccs == 0
    ensures TLS13_MAX_DROPPED_CCS == 2
    ensures
      var ccs := Popped(ChangeCipherSpec(true));
      Loop(h, c, st, [ccs, ccs, ccs]) == Outcome(Core(Ok(st), c.(ccs := 3)), None, 3)
  {
    var ccs := Popped(ChangeCipherSpec(true));
    assert ManyCcs(3) == [ccs, ccs, ccs];
    CcsDroppedIff(h, c, st, 3);
  }
}
