/** What the bridge service's routing, MQTT mapping and supervisor guarantee. */
module SupervisorProperties {
  import opened Wrappers
  import opened LockStatus
  import opened ActionDriver
  import opened Supervisor

  // ---- string comparison ----

  /** A string with every ASCII letter folded to lower case. */
  function Lower(s: string): string {
    seq(|s|, i requires 0 <= i < |s| => Fold(s[i]))
  }

  /** The comparison is equality after folding case, so it is reflexive and symmetric. */
  lemma IgnoresCase(a: string, b: string)
    ensures EqualsIgnoreCase(a, b) <==> Lower(a) == Lower(b)
    ensures EqualsIgnoreCase(a, b) <==> EqualsIgnoreCase(b, a)
    ensures EqualsIgnoreCase(a, a)
  {
    if Lower(a) == Lower(b) {
      forall i | 0 <= i < |a| ensures Fold(a[i]) == Fold(b[i]) {
        assert Lower(a)[i] == Lower(b)[i];
      }
    }
  }

  /** Among the statuses the service ever publishes, a desired state is matched only by
      itself: the initial "Unknown" and the UNKNOWN/UNAVAILABLE reports never satisfy it. */
  lemma PublishedStatusesMatchExactly(status: string, desired: string)
    requires status in {"LOCKED", "UNLOCKED", "UNAVAILABLE", "UNKNOWN", InitialStatus}
    requires desired in {"LOCKED", "UNLOCKED"}
    ensures EqualsIgnoreCase(status, desired) <==> status == desired
  {
    if status == desired {
      assert forall i :: 0 <= i < |status| ==> Fold(status[i]) == Fold(desired[i]);
    }
  }

  // ---- routing ----

  /** Only LOCK and UNLOCK on the set topic reach triggerLockOperation; the status-check
      and debug topics request a status check and a dump; every other message is
      ignored. */
  lemma RouteMessageSpec(topic: string, message: string)
    ensures RouteMessage(topic, message).Command? <==>
              topic == SetTopic && (message == "LOCK" || message == "UNLOCK")
    ensures RouteMessage(topic, message).Command? ==> RouteMessage(topic, message).command == message
    ensures RouteMessage(topic, message) == StatusCheck <==> topic == CheckStatusTopic
    ensures RouteMessage(topic, message) == Dump <==> topic == DebugTopic
    ensures RouteMessage(topic, message) == Ignored <==>
              (topic == SetTopic && message != "LOCK" && message != "UNLOCK") ||
              (topic != SetTopic && topic != CheckStatusTopic && topic != DebugTopic)
  {
  }

  /** A command, the desired state it sets, and the action the supervisor then performs
      agree: LOCK leads to a LOCK click and UNLOCK to an UNLOCK click. */
  lemma CommandRoundTrip(command: string)
    ensures DesiredFor(command).Some? <==> command == "LOCK" || command == "UNLOCK"
    ensures command == "LOCK" ==> ActionFor(DesiredFor(command).value) == Lock
    ensures command == "UNLOCK" ==> ActionFor(DesiredFor(command).value) == Unlock
    ensures DesiredFor(command).Some? ==> DesiredFor(command).value in {"LOCKED", "UNLOCKED"}
  {
  }

  // ---- the status-to-MQTT mapping ----

  /** The payloads published on the state topic. */
  function StatePayloads(ms: seq<Message>): seq<string>
    decreases |ms|
  {
    if ms == [] then []
    else StatePayloads(ms[..|ms| - 1]) +
         (if ms[|ms| - 1].topic == StateTopic then [ms[|ms| - 1].payload] else [])
  }

  /** The LOCKED and UNLOCKED emissions, repeats included, in order. */
  function ConfirmedStatuses(statuses: seq<string>): seq<string>
    decreases |statuses|
  {
    if statuses == [] then []
    else ConfirmedStatuses(statuses[..|statuses| - 1]) +
         (if IsConfirmed(statuses[|statuses| - 1]) then [statuses[|statuses| - 1]] else [])
  }

  lemma {:induction false} StatePayloadsConcat(a: seq<Message>, b: seq<Message>)
    ensures StatePayloads(a + b) == StatePayloads(a) + StatePayloads(b)
    decreases |b|
  {
    if b == [] {
      assert a + b == a;
    } else {
      assert (a + b)[..|a + b| - 1] == a + b[..|b| - 1];
      StatePayloadsConcat(a, b[..|b| - 1]);
    }
  }

  /** One emission: LOCKED and UNLOCKED report online, the state and the timestamp;
      UNAVAILABLE reports offline only; nothing else, and nothing while disconnected, is
      published. */
  lemma StatusMessagesSpec(status: string, connected: bool, stamp: string)
    ensures var ms := StatusMessages(status, connected, stamp);
            && (StatePayloads(ms) == if connected && IsConfirmed(status) then [status] else [])
            && (Message(AvailabilityTopic, "online") in ms <==> connected && IsConfirmed(status))
            && (Message(AvailabilityTopic, "offline") in ms <==> connected && status == "UNAVAILABLE")
            && (Message(LastUpdatedTopic, stamp) in ms <==> connected && IsConfirmed(status))
            && (ms == [] <==> !connected || !(IsConfirmed(status) || status == "UNAVAILABLE"))
            && (connected && IsConfirmed(status) ==>
                  ms == [Message(AvailabilityTopic, "online"), Message(StateTopic, status),
                         Message(LastUpdatedTopic, stamp)])
            && (connected && status == "UNAVAILABLE" ==> ms == [Message(AvailabilityTopic, "offline")])
  {
    var ms := StatusMessages(status, connected, stamp);
    if connected && IsConfirmed(status) {
      assert ms[..2][..1] == [ms[0]] && ms[..|ms| - 1] == ms[..2];
      assert StatePayloads([ms[0]]) == [];
    } else if connected && status == "UNAVAILABLE" {
      assert ms[..|ms| - 1] == [];
    }
  }

  /** Every LOCKED or UNLOCKED emission, even one equal to the previous, republishes the
      state while connected; a disconnected client publishes nothing. */
  lemma {:induction false} MqttTrafficSpec(statuses: seq<string>, connected: bool, stamps: seq<string>)
    requires |stamps| == |statuses|
    ensures StatePayloads(MqttTraffic(statuses, connected, stamps)) ==
            if connected then ConfirmedStatuses(statuses) else []
    ensures !connected ==> MqttTraffic(statuses, connected, stamps) == []
    decreases |statuses|
  {
    if statuses != [] {
      var n := |statuses| - 1;
      MqttTrafficSpec(statuses[..n], connected, stamps[..n]);
      StatePayloadsConcat(MqttTraffic(statuses[..n], connected, stamps[..n]),
                          StatusMessages(statuses[n], connected, stamps[n]));
      StatusMessagesSpec(statuses[n], connected, stamps[n]);
    }
  }

  // ---- the confirmation wait ----

  lemma {:induction false} FirstMatchSpec(desired: string, arrivals: seq<Publication>, from: nat)
    requires from <= |arrivals|
    ensures var k := FirstMatch(desired, arrivals, from);
            && (k < |arrivals| ==> EqualsIgnoreCase(arrivals[k].status, desired))
            && (forall j :: from <= j < k ==> !EqualsIgnoreCase(arrivals[j].status, desired))
    decreases |arrivals| - from
  {
    if from < |arrivals| && !EqualsIgnoreCase(arrivals[from].status, desired) {
      FirstMatchSpec(desired, arrivals, from + 1);
    }
  }

  /** The wait succeeds exactly when the replayed status or some arrival matches; it then
      stops at the first matching arrival, so the latest status afterwards matches.
      Otherwise every arrival is seen. */
  lemma AwaitMatchSpec(desired: string, latest: string, arrivals: seq<Publication>)
    ensures var w := AwaitMatch(desired, latest, arrivals);
            && (w.ok <==> EqualsIgnoreCase(latest, desired) ||
                          exists j :: 0 <= j < |arrivals| && EqualsIgnoreCase(arrivals[j].status, desired))
            && w.seen <= arrivals
            && (w.ok ==> EqualsIgnoreCase(LatestAfter(latest, w.seen), desired))
            && (w.ok && w.seen != [] ==>
                  forall j :: 0 <= j < |w.seen| - 1 ==> !EqualsIgnoreCase(w.seen[j].status, desired))
            && (!w.ok ==> w.seen == arrivals)
  {
    FirstMatchSpec(desired, arrivals, 0);
    var k := FirstMatch(desired, arrivals, 0);
    if !EqualsIgnoreCase(latest, desired) && k < |arrivals| {
      var seen := arrivals[..k + 1];
      assert seen[|seen| - 1] == arrivals[k];
      assert forall j :: 0 <= j < |seen| - 1 ==> seen[j] == arrivals[j];
    }
  }

  // ---- the supervisor ----

  /** What handling a desired value from attempt index `i` guarantees about the clicks:
      the supervisor calls executeAction at most once per remaining attempt, always with
      the desired state's action; it stops on attempt k with k - 1 calls when the state
      already matched, with k calls after a successful click on attempt k, and otherwise
      makes every remaining call and ends on UNAVAILABLE. */
  ghost predicate RunSpec(desired: string, envs: seq<AttemptEnv>, i: nat, e: Ending)
    requires i <= RetryLimit && |envs| == RetryLimit
  {
    && |e.calls| <= RetryLimit - i
    && (forall j :: 0 <= j < |e.calls| ==> e.calls[j] == ActionFor(desired))
    && (e.outcome.Satisfied? ==>
          i < e.outcome.attempt <= RetryLimit && |e.calls| == e.outcome.attempt - 1 - i)
    && (e.outcome.Confirmed? ==>
          i < e.outcome.attempt <= RetryLimit && |e.calls| == e.outcome.attempt - i &&
          envs[e.outcome.attempt - 1].clicked)
    && (e.outcome.Exhausted? ==> |e.calls| == RetryLimit - i && e.bus.latest == Unavailable)
  }

  lemma RunSpecCall(desired: string, envs: seq<AttemptEnv>, i: nat, rest: Ending)
    requires i < RetryLimit && |envs| == RetryLimit
    requires RunSpec(desired, envs, i + 1, rest)
    ensures RunSpec(desired, envs, i, WithCall(ActionFor(desired), rest))
  {
    var e := WithCall(ActionFor(desired), rest);
    assert forall j :: 0 < j < |e.calls| ==> e.calls[j] == rest.calls[j - 1];
  }

  lemma {:induction false} SupervisorRunSpec(desired: string, s: BusState, envs: seq<AttemptEnv>, i: nat, now: int)
    requires i <= RetryLimit && |envs| == RetryLimit
    ensures RunSpec(desired, envs, i, SupervisorRun(desired, s, envs, i, now))
    decreases RetryLimit - i
  {
    if i < RetryLimit {
      var env := envs[i];
      var s1 := ApplyAll(s, env.before);
      if !EqualsIgnoreCase(s1.latest, desired) {
        var s2 := ApplyAll(s1, env.during);
        var a := ActionFor(desired);
        if env.clicked {
          var w := AwaitMatch(desired, s2.latest, env.arrivals);
          var s3 := ApplyAll(s2, w.seen);
          if !w.ok {
            SupervisorRunSpec(desired, s3, envs, i + 1, now);
            RunSpecCall(desired, envs, i, SupervisorRun(desired, s3, envs, i + 1, now));
          }
        } else {
          SupervisorRunSpec(desired, s2, envs, i + 1, now);
          RunSpecCall(desired, envs, i, SupervisorRun(desired, s2, envs, i + 1, now));
        }
      }
    }
  }

  /** The supervisor stops early only on a match: when it ends satisfied or confirmed, the
      latest status equals the desired state, ignoring case. */
  lemma {:induction false} StopsOnMatch(desired: string, s: BusState, envs: seq<AttemptEnv>, i: nat, now: int)
    requires i <= RetryLimit && |envs| == RetryLimit
    ensures var e := SupervisorRun(desired, s, envs, i, now);
            !e.outcome.Exhausted? ==> EqualsIgnoreCase(e.bus.latest, desired)
    decreases RetryLimit - i
  {
    if i < RetryLimit {
      var env := envs[i];
      var s1 := ApplyAll(s, env.before);
      if !EqualsIgnoreCase(s1.latest, desired) {
        var s2 := ApplyAll(s1, env.during);
        if env.clicked {
          var w := AwaitMatch(desired, s2.latest, env.arrivals);
          if w.ok {
            AwaitMatchSpec(desired, s2.latest, env.arrivals);
            ApplyAllEmits(s2, w.seen);
          } else {
            StopsOnMatch(desired, ApplyAll(s2, w.seen), envs, i + 1, now);
          }
        } else {
          StopsOnMatch(desired, s2, envs, i + 1, now);
        }
      }
    }
  }

  /** No publication of `ps` matches the desired state. */
  ghost predicate NoneMatch(desired: string, ps: seq<Publication>) {
    forall k :: 0 <= k < |ps| ==> !EqualsIgnoreCase(ps[k].status, desired)
  }

  /** Publishing statuses that do not match never makes the latest status match. */
  lemma LatestStaysUnmatched(desired: string, s: BusState, ps: seq<Publication>)
    requires !EqualsIgnoreCase(s.latest, desired) && NoneMatch(desired, ps)
    ensures !EqualsIgnoreCase(ApplyAll(s, ps).latest, desired)
  {
    ApplyAllEmits(s, ps);
    if ps != [] {
      assert !EqualsIgnoreCase(ps[|ps| - 1].status, desired);
    }
  }

  /** When the lock never shows the desired state, from attempt index `i` on, the supervisor
      makes every remaining executeAction call and gives up. */
  lemma {:induction false} NoMatchExhausts(desired: string, s: BusState, envs: seq<AttemptEnv>, i: nat, now: int)
    requires i <= RetryLimit && |envs| == RetryLimit
    requires !EqualsIgnoreCase(s.latest, desired)
    requires forall j :: i <= j < RetryLimit ==>
               NoneMatch(desired, envs[j].before) && NoneMatch(desired, envs[j].during) &&
               NoneMatch(desired, envs[j].arrivals)
    ensures var e := SupervisorRun(desired, s, envs, i, now);
            e.outcome == Exhausted && |e.calls| == RetryLimit - i && e.bus.latest == Unavailable
    decreases RetryLimit - i
  {
    if i < RetryLimit {
      var env := envs[i];
      var s1 := ApplyAll(s, env.before);
      LatestStaysUnmatched(desired, s, env.before);
      var s2 := ApplyAll(s1, env.during);
      LatestStaysUnmatched(desired, s1, env.during);
      if env.clicked {
        AwaitMatchSpec(desired, s2.latest, env.arrivals);
        var w := AwaitMatch(desired, s2.latest, env.arrivals);
        assert !w.ok && w.seen == env.arrivals;
        LatestStaysUnmatched(desired, s2, env.arrivals);
        NoMatchExhausts(desired, ApplyAll(s2, w.seen), envs, i + 1, now);
      } else {
        NoMatchExhausts(desired, s2, envs, i + 1, now);
      }
    }
  }

  /** Giving up publishes UNAVAILABLE, which leaves the last-update timestamp as it was. */
  lemma {:induction false} ExhaustionKeepsStamp(desired: string, s: BusState, envs: seq<AttemptEnv>, i: nat, now: int)
    requires i <= RetryLimit && |envs| == RetryLimit
    ensures var e := SupervisorRun(desired, s, envs, i, now);
            e.outcome.Exhausted? ==>
              exists prior: BusState :: e.bus == Apply(prior, Publication(Unavailable, now)) &&
                                        e.bus.lastUpdate == prior.lastUpdate
    decreases RetryLimit - i
  {
    if i == RetryLimit {
      var e := SupervisorRun(desired, s, envs, i, now);
      assert e.bus == Apply(s, Publication(Unavailable, now));
    } else {
      var env := envs[i];
      var s1 := ApplyAll(s, env.before);
      if !EqualsIgnoreCase(s1.latest, desired) {
        var s2 := ApplyAll(s1, env.during);
        if env.clicked {
          var w := AwaitMatch(desired, s2.latest, env.arrivals);
          if !w.ok {
            ExhaustionKeepsStamp(desired, ApplyAll(s2, w.seen), envs, i + 1, now);
          }
        } else {
          ExhaustionKeepsStamp(desired, s2, envs, i + 1, now);
        }
      }
    }
  }

  /** An attempt whose click succeeds and whose confirmation window brings a matching
      status ends the operation on that attempt. */
  lemma ConfirmedClickEnds(desired: string, s: BusState, envs: seq<AttemptEnv>, i: nat, now: int)
    requires i < RetryLimit && |envs| == RetryLimit && envs[i].clicked
    requires exists j :: 0 <= j < |envs[i].arrivals| && EqualsIgnoreCase(envs[i].arrivals[j].status, desired)
    ensures SupervisorRun(desired, s, envs, i, now).outcome in {Satisfied(i + 1), Confirmed(i + 1)}
  {
    var env := envs[i];
    var s2 := ApplyAll(ApplyAll(s, env.before), env.during);
    AwaitMatchSpec(desired, s2.latest, env.arrivals);
  }

  /** The state check opens every attempt: if the lock already shows the desired state at
      the start of attempt i + 1, nothing is clicked from then on. */
  lemma SatisfiedAtStart(desired: string, s: BusState, envs: seq<AttemptEnv>, i: nat, now: int)
    requires i < RetryLimit && |envs| == RetryLimit
    requires EqualsIgnoreCase(ApplyAll(s, envs[i].before).latest, desired)
    ensures var e := SupervisorRun(desired, s, envs, i, now);
            e.calls == [] && e.outcome == Satisfied(i + 1) && e.bus == ApplyAll(s, envs[i].before)
  {
  }

  /** No successful click, no confirmation: without a single click the supervisor either
      finds the state already right or gives up after RetryLimit calls. */
  lemma {:induction false} NoClickNoConfirmation(desired: string, s: BusState, envs: seq<AttemptEnv>, i: nat, now: int)
    requires i <= RetryLimit && |envs| == RetryLimit
    requires forall j :: i <= j < RetryLimit ==> !envs[j].clicked
    ensures !SupervisorRun(desired, s, envs, i, now).outcome.Confirmed?
    decreases RetryLimit - i
  {
    if i < RetryLimit {
      var env := envs[i];
      var s1 := ApplyAll(s, env.before);
      if !EqualsIgnoreCase(s1.latest, desired) {
        NoClickNoConfirmation(desired, ApplyAll(s1, env.during), envs, i + 1, now);
      }
    }
  }
}
