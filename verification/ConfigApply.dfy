/** The lifecycle of configuration reloads: overlapping attempts, each of which may publish, finish or be
    dropped at any time, report into one status. */
module ConfigApply {
  import opened Prelude

  datatype Phase = Applied | Validating | Rejected | RestartRequired | PolicyPending | PolicyFailed

  datatype Status = Status(observed: nat, runtime: nat, phase: Phase, restart: seq<string>)

  const DEFAULT_STATUS := Status(0, 0, Applied, [])

  function Settled(restart: seq<string>): Phase {
    if restart == [] then Applied else RestartRequired
  }

  function AfterBegin(s: Status): Status {
    s.(observed := s.observed + 1, phase := Validating)
  }

  function AfterPublish(s: Status, revision: nat, restart: seq<string>, policy: bool): Status {
    if revision != s.observed then s
    else s.(runtime := revision, restart := restart, phase := if policy then PolicyPending else Settled(restart))
  }

  function AfterFinish(s: Status, revision: nat, success: bool, published: bool): Status {
    if revision != s.observed then s
    else s.(phase := if success then Settled(s.restart) else if published then PolicyFailed else Rejected)
  }

  /** The fields whose change needs a restart; the IPv6 mode is applied by the policy step instead. */
  function RestartFields(fields: seq<string>): seq<string> {
    if fields == [] then []
    else (if fields[0] != "ipv6_mode" then [fields[0]] else []) + RestartFields(fields[1..])
  }

  class ApplyStatus {
    var observed: nat
    var runtime: nat
    var phase: Phase
    var restart: seq<string>

    constructor ()
      ensures Now() == DEFAULT_STATUS
    {
      observed, runtime, phase, restart := 0, 0, Applied, [];
    }

    ghost function Now(): Status
      reads this
    {
      Status(observed, runtime, phase, restart)
    }

    method Begin() returns (revision: nat)
      modifies this`observed, this`phase
      ensures Now() == AfterBegin(old(Now())) && revision == observed
    {
      observed := observed + 1;
      phase := Validating;
      revision := observed;
    }

    method Publish(revision: nat, fields: seq<string>, policy: bool)
      modifies this
      ensures Now() == AfterPublish(old(Now()), revision, fields, policy)
    {
      if revision != observed {
        return;
      }
      runtime := revision;
      restart := fields;
      phase := if policy then PolicyPending else if restart == [] then Applied else RestartRequired;
    }

    method Finish(revision: nat, success: bool, published: bool)
      modifies this`phase
      ensures Now() == AfterFinish(old(Now()), revision, success, published)
    {
      if revision != observed {
        return;
      }
      if !success {
        phase := if published then PolicyFailed else Rejected;
      } else {
        phase := if restart == [] then Applied else RestartRequired;
      }
    }
  }

  /** One reload. Its end is either `PolicyFinished` or `Drop`. */
  class ApplyAttempt {
    const status: ApplyStatus
    const revision: nat
    const fields: seq<string>
    var published: bool
    var finished: bool

    constructor (status: ApplyStatus, fields: seq<string>)
      modifies status`observed, status`phase
      ensures this.status == status && status.Now() == AfterBegin(old(status.Now()))
      ensures revision == status.observed && Now() == Attempt(RestartFields(fields), false, false)
    {
      this.status := status;
      this.fields := RestartFields(fields);
      var r := status.Begin();
      revision := r;
      published, finished := false, false;
    }

    ghost function Now(): Attempt
      reads this
    {
      Attempt(fields, published, finished)
    }

    method RuntimeApplied(policy: bool)
      modifies this, status
      ensures status.Now() == AfterPublish(old(status.Now()), revision, fields, policy)
      ensures Now() == Attempt(fields, true, !policy)
    {
      published := true;
      status.Publish(revision, fields, policy);
      finished := !policy;
    }

    method PolicyFinished(success: bool)
      modifies this, status
      ensures status.Now() == AfterFinish(old(status.Now()), revision, success, true)
    {
      status.Finish(revision, success, true);
      finished := true;
      Drop();
    }

    method Drop()
      modifies status
      ensures status.Now() == if finished then old(status.Now())
                              else AfterFinish(old(status.Now()), revision, false, published)
    {
      if !finished {
        status.Finish(revision, false, published);
      }
    }
  }

  // ---- interleavings ----

  datatype Attempt = Attempt(restart: seq<string>, published: bool, finished: bool)

  /** How far an attempt has come, told by what was done with it and not by the status. */
  datatype Story =
    | Unpublished
    | Published
    | AwaitingPolicy
    | PolicySucceeded
    | PolicyReportedFailure
    | DroppedUnpublished
    | DroppedAwaiting

  /** The changed fields an attempt began with, and its story so far. */
  datatype Record = Record(fields: seq<string>, story: Story)

  /** The status, the attempts still alive by revision, and the record of every attempt. */
  datatype World = World(status: Status, live: map<nat, Attempt>, told: map<nat, Record>)

  const START := World(DEFAULT_STATUS, map[], map[])

  function StoryAfterDrop(story: Story): Story {
    match story
    case Unpublished => DroppedUnpublished
    case AwaitingPolicy => DroppedAwaiting
    case _ => story
  }

  function Tell(told: map<nat, Record>, r: nat, story: Story): map<nat, Record> {
    if r in told then told[r := told[r].(story := story)] else told
  }

  datatype Event =
    | Begin(fields: seq<string>)
    | RuntimeApplied(revision: nat, policy: bool)
    | PolicyFinished(revision: nat, success: bool)
    | Drop(revision: nat)

  /** An attempt acts while it is alive, and the policy step reports only after publication. */
  predicate Enabled(w: World, e: Event) {
    match e
    case Begin(_) => true
    case RuntimeApplied(r, _) => r in w.live
    case PolicyFinished(r, _) => r in w.live && w.live[r].published
    case Drop(r) => r in w.live
  }

  function Step(w: World, e: Event): World
    requires e.Begin? || e.revision in w.live
  {
    match e
    case Begin(fields) =>
      var s := AfterBegin(w.status);
      World(s, w.live[s.observed := Attempt(RestartFields(fields), false, false)],
            w.told[s.observed := Record(fields, Unpublished)])
    case RuntimeApplied(r, policy) =>
      World(AfterPublish(w.status, r, w.live[r].restart, policy),
            w.live[r := w.live[r].(published := true, finished := !policy)],
            Tell(w.told, r, if policy then AwaitingPolicy else Published))
    case PolicyFinished(r, success) =>
      World(AfterFinish(w.status, r, success, true), w.live - {r},
            Tell(w.told, r, if success then PolicySucceeded else PolicyReportedFailure))
    case Drop(r) =>
      var a := w.live[r];
      World(if a.finished then w.status else AfterFinish(w.status, r, false, a.published), w.live - {r},
            if r in w.told then Tell(w.told, r, StoryAfterDrop(w.told[r].story)) else w.told)
  }

  predicate Terminal(p: Phase) {
    !p.Validating? && !p.PolicyPending?
  }

  /** The status speaks for the newest attempt only. */
  ghost predicate Inv(w: World) {
    var s := w.status;
    && (forall r :: r in w.live ==> 1 <= r <= s.observed)
    && (forall r :: r in w.live ==> (w.live[r].finished ==> w.live[r].published))
    && s.runtime <= s.observed
    && (s.phase.Validating? <==> s.observed in w.live && !w.live[s.observed].published)
    && (s.phase.PolicyPending? <==>
          s.observed in w.live && w.live[s.observed].published && !w.live[s.observed].finished)
    && (s.runtime == s.observed <==> !s.phase.Validating? && !s.phase.Rejected?)
    && (s.phase.Applied? ==> s.restart == [])
    && (s.phase.RestartRequired? ==> s.restart != [])
    && (s.observed in w.live && w.live[s.observed].published ==>
          s.runtime == s.observed && s.restart == w.live[s.observed].restart)
  }

  lemma StepInv(w: World, e: Event)
    requires Inv(w) && Enabled(w, e)
    ensures Inv(Step(w, e))
  {
  }

  ghost predicate Reachable(w: World, events: seq<Event>, last: World)
    decreases |events|
  {
    if events == [] then w == last
    else Enabled(w, events[0]) && Reachable(Step(w, events[0]), events[1..], last)
  }

  lemma {:induction false} ReachableInv(w: World, events: seq<Event>, last: World)
    requires Inv(w) && Reachable(w, events, last)
    ensures Inv(last)
    decreases |events|
  {
    if events != [] {
      StepInv(w, events[0]);
      ReachableInv(Step(w, events[0]), events[1..], last);
    }
  }

  /** In every interleaving: the phase is Validating, or PolicyPending, exactly while the newest attempt
      is alive and unpublished, or awaits its policy; every other published phase means that the newest
      revision runs, Rejected that an older one does; and with no attempt alive the phase is terminal. */
  lemma StatusIsTruthful(events: seq<Event>, w: World)
    requires Reachable(START, events, w)
    ensures
      var s := w.status;
      && (s.phase.Validating? <==> s.observed in w.live && !w.live[s.observed].published)
      && (s.phase.PolicyPending? <==>
            s.observed in w.live && w.live[s.observed].published && !w.live[s.observed].finished)
      && (s.phase in {Applied, RestartRequired, PolicyPending, PolicyFailed} ==> s.runtime == s.observed)
      && (s.phase == Rejected ==> s.runtime < s.observed)
      && (s.phase == Applied ==> s.restart == []) && (s.phase == RestartRequired ==> s.restart != [])
      && (w.live == map[] ==> Terminal(s.phase))
  {
    ReachableInv(START, events, w);
  }

  lemma {:induction false} RestartFieldsMeaning(fields: seq<string>)
    ensures forall f :: f in RestartFields(fields) <==> f in fields && f != "ipv6_mode"
  {
    if fields != [] {
      RestartFieldsMeaning(fields[1..]);
      assert fields == [fields[0]] + fields[1..];
    }
  }

  lemma NoRestartIff(fields: seq<string>)
    ensures RestartFields(fields) == [] <==> forall f <- fields :: f == "ipv6_mode"
  {
    RestartFieldsMeaning(fields);
    if RestartFields(fields) != [] {
      assert RestartFields(fields)[0] in RestartFields(fields);
    }
  }

  /** The status tells the story of the newest attempt, and the attempts alive are where their stories say. */
  ghost predicate Telling(w: World) {
    var s := w.status;
    && (forall r :: r in w.told ==> 1 <= r <= s.observed)
    && (s.observed > 0 ==> s.observed in w.told)
    && (forall r :: r in w.live ==>
          && r in w.told && w.live[r].restart == RestartFields(w.told[r].fields)
          && (w.told[r].story.Unpublished? <==> !w.live[r].published)
          && (w.told[r].story.AwaitingPolicy? <==> w.live[r].published && !w.live[r].finished)
          && (w.told[r].story.Published? <==> w.live[r].published && w.live[r].finished))
    && (s.observed > 0 ==> Fits(w.told[s.observed], s))
    && (s.observed == 0 ==> s == DEFAULT_STATUS)
  }

  /** The phase that belongs to a story. */
  predicate Fits(r: Record, s: Status) {
    match r.story
    case Unpublished => s.phase == Validating
    case AwaitingPolicy => s.phase == PolicyPending && s.restart == RestartFields(r.fields)
    case Published => s.phase == Settled(s.restart) && s.restart == RestartFields(r.fields)
    case PolicySucceeded => s.phase == Settled(s.restart) && s.restart == RestartFields(r.fields)
    case PolicyReportedFailure => s.phase == PolicyFailed && s.restart == RestartFields(r.fields)
    case DroppedUnpublished => s.phase == Rejected
    case DroppedAwaiting => s.phase == PolicyFailed && s.restart == RestartFields(r.fields)
  }

  lemma StepTelling(w: World, e: Event)
    requires Inv(w) && Telling(w) && Enabled(w, e)
    ensures Telling(Step(w, e))
  {
  }

  lemma {:induction false} ReachableTelling(w: World, events: seq<Event>, last: World)
    requires Inv(w) && Telling(w) && Reachable(w, events, last)
    ensures Telling(last)
    decreases |events|
  {
    if events != [] {
      StepInv(w, events[0]);
      StepTelling(w, events[0]);
      ReachableTelling(Step(w, events[0]), events[1..], last);
    }
  }

  /** In every interleaving the phase is exactly what happened to the newest attempt: Applied or
      RestartRequired if it published without a policy or its policy succeeded, by whether a changed field
      other than the IPv6 mode needs a restart; PolicyFailed if its policy failed or it was dropped while
      that was pending; Rejected if it was dropped unpublished; Validating and PolicyPending while it goes
      on. */
  lemma PhaseTellsTheStory(events: seq<Event>, w: World)
    requires Reachable(START, events, w) && w.status.observed > 0
    ensures w.status.observed in w.told
    ensures
      var p, newest := w.status.phase, w.told[w.status.observed];
      var succeeded := newest.story in {Published, PolicySucceeded};
      var restarts := exists f <- newest.fields :: f != "ipv6_mode";
      && (p == Applied <==> succeeded && !restarts)
      && (p == RestartRequired <==> succeeded && restarts)
      && (p == PolicyFailed <==> newest.story in {PolicyReportedFailure, DroppedAwaiting})
      && (p == Rejected <==> newest.story == DroppedUnpublished)
      && (p == Validating <==> newest.story == Unpublished)
      && (p == PolicyPending <==> newest.story == AwaitingPolicy)
  {
    ReachableTelling(START, events, w);
    NoRestartIff(w.told[w.status.observed].fields);
  }

  /** The stories follow the events: each report or drop of the newest attempt, from any reachable state. */
  lemma StoriesFollowEvents(w: World, e: Event)
    requires Telling(w) && Enabled(w, e)
    ensures
      var told := Step(w, e).told;
      match e
      case Begin(fields) => told == w.told[w.status.observed + 1 := Record(fields, Unpublished)]
      case RuntimeApplied(r, policy) =>
        r in told && told[r] == Record(w.told[r].fields, if policy then AwaitingPolicy else Published)
      case PolicyFinished(r, success) =>
        r in told && told[r] == Record(w.told[r].fields, if success then PolicySucceeded else PolicyReportedFailure)
      case Drop(r) =>
        && r in told && told[r].fields == w.told[r].fields
        && (w.told[r].story == Unpublished ==> told[r].story == DroppedUnpublished)
        && (w.told[r].story == AwaitingPolicy ==> told[r].story == DroppedAwaiting)
        && (w.told[r].story == Published ==> told[r].story == Published)
  {
  }

  /** Only the newest attempt can change the status. */
  lemma OnlyTheNewestReports(w: World, e: Event)
    requires !e.Begin? && e.revision in w.live && Step(w, e).status != w.status
    ensures e.revision == w.status.observed
  {
  }

  /** A policy report is sound exactly when its attempt has published or is no longer the newest. */
  lemma PolicyReportSoundIffPublished(w: World, r: nat, success: bool)
    requires Inv(w) && r in w.live
    ensures Inv(Step(w, PolicyFinished(r, success))) <==> w.live[r].published || r != w.status.observed
  {
  }

  function Drops(order: seq<nat>): seq<Event> {
    seq(|order|, i requires 0 <= i < |order| => Drop(order[i]))
  }

  /** `order` names each attempt still alive once. */
  ghost predicate Lists(w: World, order: seq<nat>) {
    && (forall r :: r in w.live <==> r in order)
    && (forall i, j :: 0 <= i < j < |order| ==> order[i] != order[j])
  }

  lemma ListsRest(w: World, order: seq<nat>)
    requires Lists(w, order) && order != []
    ensures order[0] in w.live && Lists(Step(w, Drop(order[0])), order[1..])
  {
    var r, rest := order[0], order[1..];
    assert r in order && order == [r] + rest;
    forall x
      ensures x in w.live - {r} <==> x in rest
    {
      if x in rest {
        var i :| 0 <= i < |rest| && rest[i] == x;
        assert order[i + 1] == x;
      }
    }
  }

  /** The world after dropping these attempts in turn. */
  ghost function AfterDrops(w: World, order: seq<nat>): World
    requires Lists(w, order)
    decreases |order|
  {
    if order == [] then w
    else
      ListsRest(w, order);
      AfterDrops(Step(w, Drop(order[0])), order[1..])
  }

  /** In whatever order the attempts still alive are dropped, the run is possible and ends with none alive
      in a terminal phase. */
  lemma {:induction false} DroppingAllTerminates(w: World, order: seq<nat>)
    requires Inv(w) && Lists(w, order)
    ensures
      var last := AfterDrops(w, order);
      Reachable(w, Drops(order), last) && last.live == map[] && Terminal(last.status.phase) && Inv(last)
    decreases |order|
  {
    if order == [] {
      assert w.live == map[];
    } else {
      ListsRest(w, order);
      StepInv(w, Drop(order[0]));
      DroppingAllTerminates(Step(w, Drop(order[0])), order[1..]);
      assert Drops(order)[0] == Drop(order[0]) && Drops(order)[1..] == Drops(order[1..]);
    }
  }
}
