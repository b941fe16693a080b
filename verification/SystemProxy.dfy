/** The desktop platform below the proxy journal: how settings compare, what the OS backend writes,
    and the recovery theorem for that platform. */
module SystemProxy {
  import opened Prelude
  import opened Text
  import opened ProxyJournal
  import Sorting

  const LOOPBACK := "127.0.0.1"

  // ---- comparison ----

  /** A part of the bypass list as an entry, or none if it is blank. */
  function Entry(part: string): seq<string> {
    if Trim(part) == "" then [] else [Lower(Trim(part))]
  }

  function BypassEntries(text: string): seq<string> {
    Gather(Entry, Split(text, {',', ';'}))
  }

  function Compare(c: ProxyConfig): Compared {
    if !c.enabled then Off
    else On(Lower(c.host), c.port, Sorting.Sort(Leq, BypassEntries(c.bypass)))
  }

  /** The comparison ignores exactly the case of the host, the order, case, padding and empty parts
      of the bypass list, and everything but the switch when the proxy is off. */
  lemma CompareMeaning(a: ProxyConfig, b: ProxyConfig)
    ensures Compare(a) == Compare(b) <==>
            && a.enabled == b.enabled
            && (a.enabled ==>
                  && Lower(a.host) == Lower(b.host) && a.port == b.port
                  && multiset(BypassEntries(a.bypass)) == multiset(BypassEntries(b.bypass)))
  {
    LeqIsTotalOrder();
    Sorting.SortEqualIffPermutation(Leq, BypassEntries(a.bypass), BypassEntries(b.bypass));
  }

  /** Commas and semicolons separate the entries of a bypass list. */
  lemma BypassSeparates(a: string, sep: char, b: string)
    requires sep == ',' || sep == ';'
    ensures BypassEntries(a + [sep] + b) == BypassEntries(a) + BypassEntries(b)
  {
    SplitAtSeparator(a, sep, b, {',', ';'});
    GatherAppend(Entry, Split(a, {',', ';'}), Split(b, {',', ';'}));
  }

  /** And nothing else does: a part without them is one entry, trimmed and in lower case, or none if blank. */
  lemma BypassPart(part: string)
    requires ',' !in part && ';' !in part
    ensures BypassEntries(part) == if forall c <- part :: White(c) then [] else [Lower(Trim(part))]
  {
    SplitNowhere(part, {',', ';'});
    GatherOne(Entry, part);
    TrimEmptyIff(part);
  }

  lemma GatherOne(f: string -> seq<string>, x: string)
    ensures Gather(f, [x]) == f(x)
  {
    assert Gather(f, [x]) == f(x) + Gather(f, [x][1..]);
  }

  // ---- the OS backend ----

  predicate Wildcard(host: string) {
    host == "0.0.0.0" || host == "::"
  }

  /** What the OS holds after `clear_system_proxy` or `set_system_proxy_with_bypass`. */
  function Write(c: ProxyConfig): Option<ProxyConfig> {
    if !c.enabled then Some(ProxyConfig(false, "", 0, ""))
    else
      var h := Trim(c.host);
      if h == "" then None
      else Some(c.(host := if Wildcard(h) then LOOPBACK else h))
  }

  /** The host that `enable` records: the wildcard test comes before the trim. */
  function EndpointHost(host: string): string {
    if Wildcard(host) then LOOPBACK else Trim(host)
  }

  /** The setting `enable` records, with the platform's bypass list. */
  function Endpoint(bypass: string, host: string, port: nat): Option<ProxyConfig> {
    if EndpointHost(host) == "" || port == 0 then None
    else Some(ProxyConfig(true, EndpointHost(host), port, bypass))
  }

  /** What the backend writes: nothing but the switch when off; a trimmed host otherwise, with a wildcard
      replaced by the loopback address; port and bypass list as given. An empty host is refused. */
  lemma WriteMeaning(c: ProxyConfig)
    ensures Write(c).None? <==> c.enabled && forall x <- c.host :: White(x)
    ensures Write(c).Some? ==> Write(c).value.enabled == c.enabled
    ensures Write(c).Some? && c.enabled ==>
              && Write(c).value.port == c.port && Write(c).value.bypass == c.bypass
              && Write(c).value.host == if Trim(c.host) in {"0.0.0.0", "::"} then "127.0.0.1" else Trim(c.host)
  {
    TrimEmptyIff(c.host);
  }

  /** What `enable` records: the platform's bypass list, the port asked for, and the host, unless that is
      blank or the port is 0. */
  lemma EndpointMeaning(bypass: string, host: string, port: nat)
    ensures Endpoint(bypass, host, port).None? <==> port == 0 || forall x <- host :: White(x)
    ensures Endpoint(bypass, host, port).Some? ==>
              Endpoint(bypass, host, port).value ==
              ProxyConfig(true, if host in {"0.0.0.0", "::"} then "127.0.0.1" else Trim(host), port, bypass)
  {
    TrimEmptyIff(host);
    if Wildcard(host) {
      assert host[0] in host && !White(host[0]);
    }
  }

  function Desktop(bypass: string): Platform {
    Platform(Compare, Write, (host, port: nat) => Endpoint(bypass, host, port))
  }

  // ---- which settings survive a write ----

  lemma TrimChangesName(h: string)
    requires Trim(h) != h
    ensures Lower(Trim(h)) != Lower(h)
  {
    LowerLength(Trim(h));
    LowerLength(h);
  }

  /** No spelling of a wildcard address compares equal to the loopback address. */
  lemma WildcardIsNotLoopback(h: string)
    requires Wildcard(Trim(h))
    ensures Lower(LOOPBACK) != Lower(h)
  {
    TrimHead(h);
    LowerHead(h, LOOPBACK);
  }

  /** A setting survives being written back exactly when it is off, or names a trimmed, non-empty
      host that is not a wildcard. */
  lemma RestorableMeaning(bypass: string, c: ProxyConfig)
    ensures Desktop(bypass).Restorable(c) <==>
            !c.enabled || (c.host != "" && Trim(c.host) == c.host && !Wildcard(c.host))
  {
    if c.enabled && Trim(c.host) != "" {
      if Wildcard(Trim(c.host)) {
        WildcardIsNotLoopback(c.host);
      } else if Trim(c.host) != c.host {
        TrimChangesName(c.host);
      }
    }
  }

  lemma DesktopSettles(bypass: string)
    ensures Desktop(bypass).Settles()
  {
    var p := Desktop(bypass);
    forall c | p.Restorable(c) ensures p.Restorable(p.write(c).value) {
      RestorableMeaning(bypass, c);
      RestorableMeaning(bypass, p.write(c).value);
    }
  }

  lemma NotTrimmable(h: string)
    requires |h| == 9 && h[0] == '1' && h[8] == '1'
    ensures Trim(h) == h && !Wildcard(h)
  {
    TrimKeeps(h);
  }

  lemma EndpointHostFacts(host: string, h: string)
    requires h == EndpointHost(host)
    ensures Trim(h) == h && (!Wildcard(h) <==> Wildcard(host) || !Wildcard(Trim(host)))
  {
    if Wildcard(host) {
      NotTrimmable(h);
    } else {
      TrimIdempotent(host);
    }
  }

  /** The backend writes an endpoint as `enable` recorded it exactly when the recorded host is not a
      wildcard: a wildcard given with surrounding spaces is recorded as one address and applied as
      another. */
  lemma EndpointFaithful(bypass: string, host: string, port: nat)
    requires Endpoint(bypass, host, port).Some?
    ensures Desktop(bypass).Restorable(Endpoint(bypass, host, port).value) <==>
            Wildcard(host) || !Wildcard(Trim(host))
  {
    RestorableMeaning(bypass, Endpoint(bypass, host, port).value);
    EndpointHostFacts(host, EndpointHost(host));
  }

  /** A setting that the backend writes as it is. */
  predicate Writable(c: ProxyConfig) {
    !c.enabled || (c.host != "" && Trim(c.host) == c.host && !Wildcard(c.host))
  }

  /** What a caller can check of an event: an endpoint is no padded wildcard, an owner that holds the proxy
      keeps its endpoint, and a user's choice can be written back and is not the recorded endpoint. */
  predicate Checked(bypass: string, w: World, e: Event) {
    match e
    case Enable(pid, host, port, _) =>
      var endpoint := Endpoint(bypass, host, port);
      endpoint.Some? ==>
        && (Wildcard(host) || !Wildcard(Trim(host)))
        && (w.journal.Some? && Compare(w.os) == Compare(w.journal.value.applied) && w.journal.value.owner == pid ==>
              Compare(w.journal.value.applied) == Compare(endpoint.value))
    case Restore(_, _, _) => true
    case External(setting) =>
      Writable(setting) && (w.journal.Some? ==> Compare(setting) != Compare(w.journal.value.applied))
  }

  /** The checks are exactly the conditions the recovery theorem asks for. */
  lemma CheckedIffAdmissible(bypass: string, w: World, e: Event)
    ensures Checked(bypass, w, e) <==> Admissible(Desktop(bypass), w, e)
  {
    if e.External? {
      RestorableMeaning(bypass, e.setting);
    } else if e.Enable? && Endpoint(bypass, e.host, e.port).Some? {
      EndpointFaithful(bypass, e.host, e.port);
    }
  }

  predicate CheckedRun(bypass: string, w: World, events: seq<Event>)
    decreases |events|
  {
    events == [] ||
    (Checked(bypass, w, events[0]) && CheckedRun(bypass, Step(Desktop(bypass), w, events[0]), events[1..]))
  }

  lemma {:induction false} CheckedRunIsAdmissible(p: Platform, bypass: string, w: World, events: seq<Event>)
    requires p == Desktop(bypass) && CheckedRun(bypass, w, events)
    ensures AdmissibleRun(p, w, events)
    decreases |events|
  {
    if events != [] {
      CheckedIffAdmissible(bypass, w, events[0]);
      CheckedRunIsAdmissible(p, bypass, Step(p, w, events[0]), events[1..]);
    }
  }

  /** Recovery on the desktop, after any run whose events pass the checks. */
  lemma DesktopRecovers(bypass: string, initial: ProxyConfig, events: seq<Event>, connects: bool)
    requires Writable(initial) && CheckedRun(bypass, World(initial, None, initial), events)
    ensures
      var p := Desktop(bypass);
      var w := Run(p, World(initial, None, initial), events);
      && (w.journal.None? ==> Compare(w.os) == Compare(w.user))
      && (w.journal.Some? ==>
            var (done, ok) := AfterRestore(p, w, Some(w.journal.value.owner), connects, Never);
            ok && done.journal.None? && Compare(done.os) == Compare(w.user))
  {
    RestorableMeaning(bypass, initial);
    DesktopSettles(bypass);
    CheckedRunIsAdmissible(Desktop(bypass), bypass, World(initial, None, initial), events);
    AnyRunRecovers(Desktop(bypass), initial, events, connects);
  }

  /** Startup recovery on the desktop: see StartupRecovers. */
  lemma DesktopStartupRecovers(bypass: string, initial: ProxyConfig, events: seq<Event>, connects: bool)
    requires Writable(initial) && CheckedRun(bypass, World(initial, None, initial), events)
    ensures
      var p := Desktop(bypass);
      var w := Run(p, World(initial, None, initial), events);
      var (done, ok) := AfterRestore(p, w, None, connects, Never);
      if w.journal.Some? && w.journal.value.applied.host in {"127.0.0.1", "localhost", "::1"} && !connects then
        ok && done.journal.None? && Compare(done.os) == Compare(w.user)
      else (done, ok) == (w, true)
  {
    RestorableMeaning(bypass, initial);
    DesktopSettles(bypass);
    CheckedRunIsAdmissible(Desktop(bypass), bypass, World(initial, None, initial), events);
    StartupRecovers(Desktop(bypass), initial, events, connects);
  }

  lemma WildcardPrevious(bypass: string, previous: ProxyConfig, applied: ProxyConfig)
    requires previous.enabled && Wildcard(Trim(previous.host)) && previous.port != applied.port
    ensures
      var p := Desktop(bypass);
      p.write(previous).Some? && !p.Restorable(previous) && !p.Same(p.write(previous).value, applied)
  {
    RestorableMeaning(bypass, previous);
  }

  /** A user whose own setting named a wildcard host loses it at the second restore, which reports success. */
  lemma WildcardPreviousIsLost(p: Platform, bypass: string, w: World, connects: bool)
    requires p == Desktop(bypass) && HoldsApplied(p, w)
    requires
      var previous := w.journal.value.previous;
      previous.enabled && Wildcard(Trim(previous.host)) && previous.port != w.journal.value.applied.port
    ensures
      var owner, previous := Some(w.journal.value.owner), w.journal.value.previous;
      var (first, restored) := AfterRestore(p, w, owner, connects, Never);
      var (second, ok) := AfterRestore(p, first, owner, connects, Never);
      !restored && ok && second.journal.None? && !p.Same(second.os, previous)
  {
    WildcardPrevious(bypass, w.journal.value.previous, w.journal.value.applied);
    RetryDropsUnrestorableRecord(p, w, connects);
  }

  lemma PaddedEndpoint(bypass: string, host: string, port: nat, user: ProxyConfig)
    requires !Wildcard(host) && Wildcard(Trim(host)) && port != 0 && !user.enabled
    ensures
      var p := Desktop(bypass);
      var e := p.endpoint(host, port);
      && p.Restorable(user) && e.Some? && !p.Restorable(e.value)
      && p.write(e.value).Some? && !p.Same(p.write(e.value).value, user)
  {
    EndpointFaithful(bypass, host, port);
    TrimIdempotent(host);
  }

  /** A user with the proxy off enables a padded wildcard: the OS gets the loopback endpoint, the
      record says otherwise, and the restore drops the record and leaves the proxy on. */
  lemma PaddedWildcardLosesTheSetting(
      p: Platform, bypass: string, host: string, port: nat, user: ProxyConfig, connects: bool)
    requires p == Desktop(bypass)
    requires !Wildcard(host) && Wildcard(Trim(host)) && port != 0 && !user.enabled
    ensures
      var enabled := AfterEnable(p, World(user, None, user), 7, host, port, Never).0;
      var (done, ok) := AfterRestore(p, enabled, Some(7), connects, Never);
      ok && done.journal.None? && !p.Same(done.os, user)
  {
    PaddedEndpoint(bypass, host, port, user);
    EnableThenRestore(p, World(user, None, user), 7, host, port, connects);
  }

  /** Either wildcard behind a space is such a host. */
  lemma PaddedWildcard(h: string)
    requires Wildcard(h)
    ensures !Wildcard([' '] + h) && Wildcard(Trim([' '] + h))
  {
    assert ([' '] + h)[0] == ' ';
    TrimPadded(' ', h);
  }
}
