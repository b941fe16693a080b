/** Durable ownership of the desktop system proxy: the OS setting, the journal file that records
    what to put back, and the transactions that change them. Several processes, the guardian, the
    user and faults at any point act on that state. */
module ProxyJournal {
  import opened Prelude

  datatype ProxyConfig = ProxyConfig(enabled: bool, host: string, port: nat, bypass: string)

  /** What a comparison of two settings looks at. */
  datatype Compared = Off | On(host: string, port: nat, entries: seq<string>)

  datatype Journal = Journal(owner: nat, previous: ProxyConfig, applied: ProxyConfig)

  /** The platform below the protocol: how settings are compared, what the OS holds after a setting
      is written (None when it refuses), and the setting an endpoint stands for (None when invalid). */
  datatype Platform = Platform(
    compare: ProxyConfig -> Compared,
    write: ProxyConfig -> Option<ProxyConfig>,
    endpoint: (string, nat) -> Option<ProxyConfig>)
  {
    predicate Same(a: ProxyConfig, b: ProxyConfig) {
      compare(a) == compare(b)
    }

    /** Writing the setting makes the OS hold one that compares equal. */
    predicate Restorable(c: ProxyConfig) {
      write(c).Some? && Same(write(c).value, c)
    }

    /** A value the OS holds after a faithful write can itself be written back. */
    ghost predicate Settles() {
      forall c {:trigger write(c)} :: Restorable(c) ==> Restorable(write(c).value)
    }
  }

  /** Where a transaction stops: a crash or an I/O error before the journal write, after it but
      before the OS write takes effect, after the OS write, or not at all. */
  datatype Stop = BeforeRecord | AfterRecord | AfterWrite | Never

  /** `user` is the setting last chosen by someone other than this program. */
  datatype World = World(os: ProxyConfig, journal: Option<Journal>, user: ProxyConfig)

  predicate HoldsApplied(p: Platform, w: World) {
    w.journal.Some? && p.Same(w.os, w.journal.value.applied)
  }

  predicate ListenerAlive(j: Journal, connects: bool) {
    j.applied.host !in {"127.0.0.1", "localhost", "::1"} || connects
  }

  function AfterEnable(p: Platform, w: World, pid: nat, host: string, port: nat, stop: Stop): (World, bool) {
    if HoldsApplied(p, w) && w.journal.value.owner != pid then (w, false)
    else
      var previous := if HoldsApplied(p, w) then w.journal.value.previous else w.os;
      match p.endpoint(host, port)
      case None => (w, false)
      case Some(applied) =>
        if stop.BeforeRecord? then (w, false)
        else
          var recorded := w.(journal := Some(Journal(pid, previous, applied)));
          var written := p.write(applied);
          if written.None? || stop.AfterRecord? then (recorded, false)
          else (recorded.(os := written.value), stop.Never? && p.Same(written.value, applied))
  }

  /** `restore_owned`: `expected` is the owner's pid, or None for startup recovery. */
  function AfterRestore(p: Platform, w: World, expected: Option<nat>, connects: bool, stop: Stop): (World, bool) {
    if w.journal.None? then (w, true)
    else
      var j := w.journal.value;
      if expected.Some? && j.owner != expected.value then (w, true)
      else if expected.None? && ListenerAlive(j, connects) then (w, true)
      else if !HoldsApplied(p, w) then
        if stop.Never? then (w.(journal := None), true) else (w, false)
      else
        var written := p.write(j.previous);
        if written.None? || stop.BeforeRecord? || stop.AfterRecord? then (w, false)
        else if stop.Never? && p.Same(written.value, j.previous) then
          (w.(os := written.value, journal := None), true)
        else (w.(os := written.value), false)
  }

  /** The host whose two durable cells the transactions update in place. */
  class ProxyHost {
    const platform: Platform
    var os: ProxyConfig
    var journal: Option<Journal>
    ghost var user: ProxyConfig

    constructor (platform: Platform, setting: ProxyConfig)
      ensures this.platform == platform && Now() == World(setting, None, setting)
    {
      this.platform := platform;
      os, journal, user := setting, None, setting;
    }

    ghost function Now(): World
      reads this
    {
      World(os, journal, user)
    }

    method Enable(pid: nat, host: string, port: nat, stop: Stop) returns (ok: bool)
      modifies this`os, this`journal
      ensures (Now(), ok) == AfterEnable(platform, old(Now()), pid, host, port, stop)
    {
      var previous := os;
      if journal.Some? && platform.Same(previous, journal.value.applied) {
        if journal.value.owner != pid {
          return false;
        }
        previous := journal.value.previous;
      }
      var applied := platform.endpoint(host, port);
      if applied.None? || stop.BeforeRecord? {
        return false;
      }
      journal := Some(Journal(pid, previous, applied.value));
      var written := platform.write(applied.value);
      if written.None? || stop.AfterRecord? {
        return false;
      }
      os := written.value;
      if stop.AfterWrite? {
        return false;
      }
      ok := platform.Same(os, applied.value);
    }

    method Restore(expected: Option<nat>, connects: bool, stop: Stop) returns (ok: bool)
      modifies this`os, this`journal
      ensures (Now(), ok) == AfterRestore(platform, old(Now()), expected, connects, stop)
    {
      if journal.None? {
        return true;
      }
      var j := journal.value;
      if expected.Some? && j.owner != expected.value {
        return true;
      }
      if expected.None? && ListenerAlive(j, connects) {
        return true;
      }
      if platform.Same(os, j.applied) {
        var written := platform.write(j.previous);
        if written.None? || stop.BeforeRecord? || stop.AfterRecord? {
          return false;
        }
        os := written.value;
        if !platform.Same(os, j.previous) {
          return false;
        }
      }
      if !stop.Never? {
        return false;
      }
      journal := None;
      ok := true;
    }

    /** Someone else changes the OS setting. */
    method Choose(setting: ProxyConfig)
      modifies this`os, this`user
      ensures Now() == World(setting, old(journal), setting)
    {
      os, user := setting, setting;
    }
  }

  // ---- runs ----

  datatype Event =
    | Enable(pid: nat, host: string, port: nat, stop: Stop)
    | Restore(expected: Option<nat>, connects: bool, stop: Stop)
    | External(setting: ProxyConfig)

  function Step(p: Platform, w: World, e: Event): World {
    match e
    case Enable(pid, host, port, stop) => AfterEnable(p, w, pid, host, port, stop).0
    case Restore(expected, connects, stop) => AfterRestore(p, w, expected, connects, stop).0
    case External(setting) => World(setting, w.journal, setting)
  }

  function Run(p: Platform, w: World, events: seq<Event>): World
    decreases |events|
  {
    if events == [] then w else Run(p, Step(p, w, events[0]), events[1..])
  }

  /** The conditions under which the protocol keeps its promise: the backend writes endpoints as
      recorded, an owner re-enables only the endpoint it already holds, and the user's choices can be
      written back and differ from a recorded endpoint. */
  predicate Admissible(p: Platform, w: World, e: Event) {
    match e
    case Enable(pid, host, port, _) =>
      var endpoint := p.endpoint(host, port);
      endpoint.Some? ==>
        && p.Restorable(endpoint.value)
        && (HoldsApplied(p, w) && w.journal.value.owner == pid ==>
              p.Same(w.journal.value.applied, endpoint.value))
    case Restore(_, _, _) => true
    case External(setting) =>
      p.Restorable(setting) && (w.journal.Some? ==> !p.Same(setting, w.journal.value.applied))
  }

  predicate AdmissibleRun(p: Platform, w: World, events: seq<Event>)
    decreases |events|
  {
    events == [] || (Admissible(p, w, events[0]) && AdmissibleRun(p, Step(p, w, events[0]), events[1..]))
  }

  /** What every reachable state satisfies: without a record the OS holds the user's setting; with a
      record it holds either the recorded endpoint, and then the record's previous setting is the
      user's, or the user's setting itself. */
  predicate Sound(p: Platform, w: World) {
    && p.Restorable(w.os)
    && (w.journal.None? ==> p.Same(w.os, w.user))
    && (w.journal.Some? ==>
          var j := w.journal.value;
          && p.Restorable(j.previous)
          && p.Same(if HoldsApplied(p, w) then j.previous else w.os, w.user))
  }

  /** Every admissible step, faults included, keeps the invariant. */
  lemma StepKeepsSound(p: Platform, w: World, e: Event)
    requires p.Settles() && Sound(p, w) && Admissible(p, w, e)
    ensures Sound(p, Step(p, w, e))
  {
  }

  lemma {:induction false} RunKeepsSound(p: Platform, w: World, events: seq<Event>)
    requires p.Settles() && Sound(p, w) && AdmissibleRun(p, w, events)
    ensures Sound(p, Run(p, w, events))
    decreases |events|
  {
    if events != [] {
      StepKeepsSound(p, w, events[0]);
      RunKeepsSound(p, Step(p, w, events[0]), events[1..]);
    }
  }

  /** After any run, with crashes and I/O errors at any point, one undisturbed restore by the
      recorded owner, or by its guardian, succeeds, drops the record and leaves the user's setting. */
  lemma AnyRunRecovers(p: Platform, initial: ProxyConfig, events: seq<Event>, connects: bool)
    requires p.Settles() && p.Restorable(initial)
    requires AdmissibleRun(p, World(initial, None, initial), events)
    ensures
      var w := Run(p, World(initial, None, initial), events);
      && (w.journal.None? ==> p.Same(w.os, w.user))
      && (w.journal.Some? ==>
            var (done, ok) := AfterRestore(p, w, Some(w.journal.value.owner), connects, Never);
            ok && done.journal.None? && p.Same(done.os, w.user) && done.user == w.user)
  {
    RunKeepsSound(p, World(initial, None, initial), events);
  }

  /** After any such run startup recovery does the same, whoever owns the record, exactly when the recorded
      endpoint is on this machine and nobody listens there; otherwise it changes nothing. */
  lemma StartupRecovers(p: Platform, initial: ProxyConfig, events: seq<Event>, connects: bool)
    requires p.Settles() && p.Restorable(initial)
    requires AdmissibleRun(p, World(initial, None, initial), events)
    ensures
      var w := Run(p, World(initial, None, initial), events);
      var (done, ok) := AfterRestore(p, w, None, connects, Never);
      if w.journal.Some? && w.journal.value.applied.host in {"127.0.0.1", "localhost", "::1"} && !connects then
        ok && done.journal.None? && p.Same(done.os, w.user) && done.user == w.user
      else (done, ok) == (w, true)
  {
    RunKeepsSound(p, World(initial, None, initial), events);
  }

  /** An undisturbed `enable` succeeds exactly when no other owner holds the proxy and the backend writes the
      endpoint as recorded; then the OS holds the endpoint and the record leads back to the user's setting. */
  lemma EnableSucceedsIff(p: Platform, w: World, pid: nat, host: string, port: nat)
    requires Sound(p, w)
    ensures
      var (w', ok) := AfterEnable(p, w, pid, host, port, Never);
      && (ok <==>
            && !(w.journal.Some? && p.compare(w.os) == p.compare(w.journal.value.applied) && w.journal.value.owner != pid)
            && p.endpoint(host, port).Some? && p.Restorable(p.endpoint(host, port).value))
      && (ok ==>
            && w'.journal.Some? && w'.journal.value.owner == pid
            && w'.journal.value.applied == p.endpoint(host, port).value
            && p.Same(w'.os, w'.journal.value.applied)
            && p.Same(w'.journal.value.previous, w.user) && w'.user == w.user)
  {
  }

  /** A restore on behalf of a process that does not own the record changes nothing, and startup
      recovery changes nothing while the recorded endpoint may still be served. */
  lemma OnlyTheOwnerRestores(p: Platform, w: World, expected: Option<nat>, connects: bool, stop: Stop)
    requires w.journal.Some?
    requires if expected.Some? then w.journal.value.owner != expected.value
             else ListenerAlive(w.journal.value, connects)
    ensures AfterRestore(p, w, expected, connects, stop) == (w, true)
  {
  }

  // ---- exactly when the conditions of Admissible are needed ----

  /** An owner that moves to another endpoint records it before the OS changes. A crash in that
      window is recovered exactly when the two endpoints, or the old one and the user's setting,
      compare equal. */
  lemma CrashWhileMovingEndpoint(p: Platform, w: World, pid: nat, host: string, port: nat, connects: bool)
    requires Sound(p, w) && HoldsApplied(p, w) && w.journal.value.owner == pid
    requires p.endpoint(host, port).Some?
    ensures
      var crashed := AfterEnable(p, w, pid, host, port, AfterRecord).0;
      var (done, ok) := AfterRestore(p, crashed, Some(pid), connects, Never);
      ok && (p.Same(done.os, w.user) <==>
               || p.Same(w.journal.value.applied, p.endpoint(host, port).value)
               || p.Same(w.os, w.user))
  {
  }

  /** Enabling and restoring returns the user's setting exactly when the backend writes the endpoint
      as recorded, or what it writes instead is already the user's setting. */
  lemma EnableThenRestore(p: Platform, w: World, pid: nat, host: string, port: nat, connects: bool)
    requires Sound(p, w) && !HoldsApplied(p, w)
    requires p.endpoint(host, port).Some? && p.write(p.endpoint(host, port).value).Some?
    ensures
      var applied := p.endpoint(host, port).value;
      var enabled := AfterEnable(p, w, pid, host, port, Never).0;
      var (done, ok) := AfterRestore(p, enabled, Some(pid), connects, Never);
      && ok && done.journal.None?
      && (p.Same(done.os, w.user) <==> p.Restorable(applied) || p.Same(p.write(applied).value, w.user))
  {
  }

  /** The restore of a held record succeeds exactly when its previous setting can be written back. */
  lemma RestoreSucceedsIffRestorable(p: Platform, w: World, connects: bool)
    requires HoldsApplied(p, w)
    ensures
      var (done, ok) := AfterRestore(p, w, Some(w.journal.value.owner), connects, Never);
      && (ok <==> p.Restorable(w.journal.value.previous))
      && (ok <==> done.journal.None?)
      && (ok ==> p.Same(done.os, w.journal.value.previous))
  {
  }

  /** A second attempt may take the half-restored value for the user's own choice: it then reports success
      and drops the record although the previous setting is not back. This happens exactly when the OS
      accepts the previous setting, turns it into another, and that one is not the endpoint. */
  lemma RetryDropsUnrestorableRecord(p: Platform, w: World, connects: bool)
    requires HoldsApplied(p, w)
    ensures
      var owner, previous := Some(w.journal.value.owner), w.journal.value.previous;
      var (first, restored) := AfterRestore(p, w, owner, connects, Never);
      var (second, ok) := AfterRestore(p, first, owner, connects, Never);
      !restored && ok && second.journal.None? && !p.Same(second.os, previous) <==>
      && p.write(previous).Some? && !p.Restorable(previous)
      && !p.Same(p.write(previous).value, w.journal.value.applied)
  {
  }

  /** If the backend fails part-way and leaves some other value, the user's setting comes back
      exactly when that value compares equal to the endpoint or to the user's setting. */
  lemma PartialWrite(p: Platform, w: World, pid: nat, host: string, port: nat, left: ProxyConfig, connects: bool)
    requires Sound(p, w) && !HoldsApplied(p, w) && p.endpoint(host, port).Some?
    ensures
      var torn := AfterEnable(p, w, pid, host, port, AfterRecord).0.(os := left);
      var (done, ok) := AfterRestore(p, torn, Some(pid), connects, Never);
      ok && (p.Same(done.os, w.user) <==>
               p.Same(left, p.endpoint(host, port).value) || p.Same(left, w.user))
  {
  }

  // ---- a choice the user makes while `enable` runs ----

  /** Between which two steps of `enable` the user's choice falls. */
  datatype Moment = BeforeRecording | BeforeWriting | BeforeConfirming | NoChoice

  /** What `enable` will record as the previous setting, unless another owner holds the record. */
  function ReadPrevious(p: Platform, w: World, pid: nat): Option<ProxyConfig> {
    if !HoldsApplied(p, w) then Some(w.os)
    else if w.journal.value.owner == pid then Some(w.journal.value.previous)
    else None
  }

  function Choosing(w: World, here: Moment, at: Moment, choice: ProxyConfig): World {
    if here == at then World(choice, w.journal, choice) else w
  }

  /** `enable` step by step, with the user changing the setting at one moment. */
  function RacedEnable(p: Platform, w: World, pid: nat, host: string, port: nat, at: Moment, choice: ProxyConfig): (World, bool) {
    var previous, endpoint := ReadPrevious(p, w, pid), p.endpoint(host, port);
    if previous.None? || endpoint.None? then (w, false)
    else
      var w1 := Choosing(w, BeforeRecording, at, choice);
      var w2 := w1.(journal := Some(Journal(pid, previous.value, endpoint.value)));
      var w3 := Choosing(w2, BeforeWriting, at, choice);
      var written := p.write(endpoint.value);
      if written.None? then (w3, false)
      else
        var w4 := Choosing(w3.(os := written.value), BeforeConfirming, at, choice);
        (w4, p.Same(w4.os, endpoint.value))
  }

  /** Without a choice the steps make up `enable`. */
  lemma RacedEnableAlone(p: Platform, w: World, pid: nat, host: string, port: nat, choice: ProxyConfig)
    ensures RacedEnable(p, w, pid, host, port, NoChoice, choice) == AfterEnable(p, w, pid, host, port, Never)
  {
  }

  /** A choice before the OS write is overwritten and never recorded: restoring brings it back exactly when
      it compares equal to the choice before it. A choice after the OS write is what the OS then holds:
      `enable` reports failure unless it compares equal to the endpoint, and restoring leaves it in place
      exactly in that case of failure, or when it compares equal to the choice before it. */
  lemma RacingChoice(
      p: Platform, w: World, pid: nat, host: string, port: nat, at: Moment, choice: ProxyConfig, connects: bool)
    requires Sound(p, w) && ReadPrevious(p, w, pid).Some? && !at.NoChoice?
    requires p.endpoint(host, port).Some? && p.Restorable(p.endpoint(host, port).value)
    ensures
      var applied := p.endpoint(host, port).value;
      var (raced, enabled) := RacedEnable(p, w, pid, host, port, at, choice);
      var (done, ok) := AfterRestore(p, raced, Some(pid), connects, Never);
      && (enabled <==> !at.BeforeConfirming? || p.Same(choice, applied))
      && ok && done.journal.None?
      && (p.Same(done.os, choice) <==>
            p.Same(w.user, choice) || (at.BeforeConfirming? && !p.Same(choice, applied)))
  {
  }
}
