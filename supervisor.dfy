/** The bridge service: command routing from MQTT and the web panel into the desired-state
    cell, the status-to-MQTT mapping, and the operation supervisor that drives the lock
    towards a desired state with a bounded number of attempts.

    What happens while the supervisor waits is an input: for each attempt, the statuses
    published before it looks at the lock (by accessibility events or a periodic check),
    the result of executeAction and the statuses published meanwhile, and the statuses
    published within the confirmation timeout. */
module Supervisor {
  import opened Wrappers
  import opened LockStatus
  import opened ActionDriver

  const RetryLimit: nat := 3

  const SetTopic: string := "home/doorlock/set"
  const CheckStatusTopic: string := "home/doorlock/check_status"
  const DebugTopic: string := "home/doorlock/debug"
  const AvailabilityTopic: string := "home/doorlock/availability"
  const StateTopic: string := "home/doorlock/state"
  const LastUpdatedTopic: string := "home/doorlock/last_updated"

  // ---- string comparison ----

  /** Case folding of one character (ASCII letters only). */
  function Fold(c: char): char {
    if 'A' <= c <= 'Z' then (c as int + 32) as char else c
  }

  /** String.equals(other, ignoreCase = true), with ASCII case folding. */
  predicate EqualsIgnoreCase(a: string, b: string) {
    |a| == |b| && forall i :: 0 <= i < |a| ==> Fold(a[i]) == Fold(b[i])
  }

  // ---- routing ----

  /** triggerLockOperation's mapping from a command to the desired state. */
  function DesiredFor(command: string): Option<string> {
    if command == "LOCK" then Some("LOCKED")
    else if command == "UNLOCK" then Some("UNLOCKED")
    else None
  }

  /** The request an MQTT message makes of the service. */
  datatype Route = Ignored | Command(command: string) | StatusCheck | Dump

  function RouteMessage(topic: string, message: string): Route {
    if topic == SetTopic then
      (if message == "LOCK" || message == "UNLOCK" then Command(message) else Ignored)
    else if topic == CheckStatusTopic then StatusCheck
    else if topic == DebugTopic then Dump
    else Ignored
  }

  /** The supervisor's action for a desired state: LOCK for "LOCKED", UNLOCK for anything
      else. */
  function ActionFor(desired: string): Action {
    if desired == "LOCKED" then Lock else Unlock
  }

  // ---- the status-to-MQTT mapping ----

  datatype Message = Message(topic: string, payload: string)

  /** What the lockStatus collector publishes for one emission, given whether the client
      is connected and the ISO 8601 timestamp of that moment. */
  function StatusMessages(status: string, connected: bool, stamp: string): seq<Message> {
    if !connected then []
    else if status == "LOCKED" || status == "UNLOCKED" then
      [Message(AvailabilityTopic, "online"), Message(StateTopic, status), Message(LastUpdatedTopic, stamp)]
    else if status == "UNAVAILABLE" then [Message(AvailabilityTopic, "offline")]
    else []
  }

  /** The collector's output for a run of emissions, one timestamp per emission. */
  function MqttTraffic(statuses: seq<string>, connected: bool, stamps: seq<string>): seq<Message>
    requires |stamps| == |statuses|
    decreases |statuses|
  {
    if statuses == [] then []
    else MqttTraffic(statuses[..|statuses| - 1], connected, stamps[..|stamps| - 1]) +
         StatusMessages(statuses[|statuses| - 1], connected, stamps[|stamps| - 1])
  }

  // ---- the supervisor, one attempt at a time ----

  /** What happens around one attempt: publications before the attempt looks at the lock
      status, executeAction's result and the publications while it runs, and the
      publications within the confirmation timeout. */
  datatype AttemptEnv = AttemptEnv(
    before: seq<Publication>,
    clicked: bool,
    during: seq<Publication>,
    arrivals: seq<Publication>)

  /** How the supervisor finished with one desired value (attempts counted from 1). */
  datatype Outcome = Satisfied(attempt: nat) | Confirmed(attempt: nat) | Exhausted

  /** The effect of handling one desired value: the bus afterwards, the executeAction
      calls made, and the outcome. */
  datatype Ending = Ending(bus: BusState, calls: seq<Action>, outcome: Outcome)

  /** The confirmation wait: the replayed latest status first, then each arrival in turn,
      stopping at the first that matches. */
  datatype Wait = Wait(ok: bool, seen: seq<Publication>)

  /** The index of the first arrival at or after `from` that matches `desired`. */
  function FirstMatch(desired: string, arrivals: seq<Publication>, from: nat): (k: nat)
    requires from <= |arrivals|
    ensures from <= k <= |arrivals|
    decreases |arrivals| - from
  {
    if from == |arrivals| then |arrivals|
    else if EqualsIgnoreCase(arrivals[from].status, desired) then from
    else FirstMatch(desired, arrivals, from + 1)
  }

  function AwaitMatch(desired: string, latest: string, arrivals: seq<Publication>): Wait {
    if EqualsIgnoreCase(latest, desired) then Wait(true, [])
    else
      var k := FirstMatch(desired, arrivals, 0);
      if k < |arrivals| then Wait(true, arrivals[..k + 1]) else Wait(false, arrivals)
  }

  function WithCall(a: Action, e: Ending): Ending {
    e.(calls := [a] + e.calls)
  }

  /** The supervisor's handling of `desired` from attempt index `i` (0-based) with the
      bus in state `s`; `now` is the clock when it gives up. */
  function SupervisorRun(desired: string, s: BusState, envs: seq<AttemptEnv>, i: nat, now: int): Ending
    requires i <= RetryLimit && |envs| == RetryLimit
    decreases RetryLimit - i
  {
    if i == RetryLimit then Ending(Apply(s, Publication(Unavailable, now)), [], Exhausted)
    else
      var e := envs[i];
      var s1 := ApplyAll(s, e.before);
      if EqualsIgnoreCase(s1.latest, desired) then Ending(s1, [], Satisfied(i + 1))
      else
        var a := ActionFor(desired);
        var s2 := ApplyAll(s1, e.during);
        if !e.clicked then WithCall(a, SupervisorRun(desired, s2, envs, i + 1, now))
        else
          var w := AwaitMatch(desired, s2.latest, e.arrivals);
          var s3 := ApplyAll(s2, w.seen);
          if w.ok then Ending(s3, [a], Confirmed(i + 1))
          else WithCall(a, SupervisorRun(desired, s3, envs, i + 1, now))
  }

  // ---- the service ----

  class LockBridge {
    const bus: StatusBus
    /** The desired-state cell (_desiredLockState). */
    var desired: Option<string>
    /** Every executeAction call made by the supervisor, oldest first. */
    var calls: seq<Action>

    constructor (bus: StatusBus)
      ensures this.bus == bus && desired == None && calls == []
    {
      this.bus := bus;
      desired := None;
      calls := [];
    }

    /** triggerLockOperation: LOCK and UNLOCK set the desired state; any other command is
        ignored. */
    method TriggerLockOperation(command: string)
      modifies this
      ensures desired == if DesiredFor(command).Some? then DesiredFor(command) else old(desired)
      ensures calls == old(calls)
    {
      if command == "LOCK" {
        desired := Some("LOCKED");
      } else if command == "UNLOCK" {
        desired := Some("UNLOCKED");
      }
    }

    /** handleMqttMessage: a LOCK or UNLOCK on the set topic goes to triggerLockOperation;
        the status-check and debug topics are handed to the accessibility service (returned
        here as the request made). */
    method HandleMqttMessage(topic: string, message: string) returns (route: Route)
      modifies this
      ensures route == RouteMessage(topic, message)
      ensures desired == if route.Command? then DesiredFor(route.command) else old(desired)
      ensures calls == old(calls)
    {
      if topic == SetTopic {
        if message == "LOCK" || message == "UNLOCK" {
          TriggerLockOperation(message);
          return Command(message);
        }
        return Ignored;
      } else if topic == CheckStatusTopic {
        return StatusCheck;
      } else if topic == DebugTopic {
        return Dump;
      }
      return Ignored;
    }

    /** The confirmation wait: first the replayed latest status, then each publication as
        it arrives. */
    method AwaitConfirmation(target: string, arrivals: seq<Publication>) returns (ok: bool)
      requires bus.Valid()
      modifies bus
      ensures bus.Valid()
      ensures var w := AwaitMatch(target, old(bus.State()).latest, arrivals);
              ok == w.ok && bus.State() == ApplyAll(old(bus.State()), w.seen)
    {
      if EqualsIgnoreCase(bus.latest, target) {
        return true;
      }
      var i := 0;
      while i < |arrivals|
        invariant i <= |arrivals| && bus.Valid()
        invariant FirstMatch(target, arrivals, i) == FirstMatch(target, arrivals, 0)
        invariant bus.State() == ApplyAll(old(bus.State()), arrivals[..i])
      {
        assert arrivals[..i + 1][..i] == arrivals[..i];
        bus.UpdateLockStatus(arrivals[i].status, arrivals[i].at);
        if EqualsIgnoreCase(arrivals[i].status, target) {
          return true;
        }
        i := i + 1;
      }
      assert arrivals[..i] == arrivals;
      ok := false;
    }

    /** startOperationSupervisor's handling of the current desired state: nothing when there
        is none; otherwise up to RetryLimit attempts, each of which first checks whether the
        lock already shows the desired state, then calls executeAction and, after a
        successful click, waits for confirmation. After the last failed attempt it
        publishes UNAVAILABLE. Every exit clears the desired state. */
    method HandleDesiredState(envs: seq<AttemptEnv>, now: int)
      requires bus.Valid() && |envs| == RetryLimit
      modifies this, bus
      ensures bus.Valid()
      ensures old(desired).None? ==> desired == None && calls == old(calls) && bus.State() == old(bus.State())
      ensures old(desired).Some? ==>
                var e := SupervisorRun(old(desired).value, old(bus.State()), envs, 0, now);
                desired == None && calls == old(calls) + e.calls && bus.State() == e.bus
    {
      if desired.None? {
        return;
      }
      var target := desired.value;
      ghost var done: seq<Action> := [];
      for attempt := 0 to RetryLimit
        invariant bus.Valid() && desired == Some(target)
        invariant calls == old(calls) + done
        invariant WithCalls(done, SupervisorRun(target, bus.State(), envs, attempt, now)) ==
                  SupervisorRun(target, old(bus.State()), envs, 0, now)
      {
        ghost var run := SupervisorRun(target, bus.State(), envs, attempt, now);
        ghost var mid := calls;
        var finished := RunAttempt(target, envs, attempt, now);
        if finished {
          desired := None;
          AppendAssoc(old(calls), done, run.calls);
          return;
        }
        WithCallsStep(done, ActionFor(target), SupervisorRun(target, bus.State(), envs, attempt + 1, now));
        done := done + [ActionFor(target)];
      }
      bus.UpdateLockStatus(Unavailable, now);
      desired := None;
      AppendNil(old(calls) + done);
    }

    /** One attempt: publications before it, the status check, executeAction and the
        confirmation wait. `finished` says whether the supervisor stops here. */
    method RunAttempt(target: string, envs: seq<AttemptEnv>, i: nat, now: int) returns (finished: bool)
      requires bus.Valid() && |envs| == RetryLimit && i < RetryLimit
      modifies this, bus
      ensures bus.Valid() && desired == old(desired)
      ensures var run := SupervisorRun(target, old(bus.State()), envs, i, now);
              && (finished ==> calls == old(calls) + run.calls && bus.State() == run.bus)
              && (!finished ==>
                    calls == old(calls) + [ActionFor(target)] &&
                    run == WithCall(ActionFor(target), SupervisorRun(target, bus.State(), envs, i + 1, now)))
      ensures !finished ==>
                var s2 := ApplyAll(ApplyAll(old(bus.State()), envs[i].before), envs[i].during);
                bus.State() ==
                  if envs[i].clicked then ApplyAll(s2, AwaitMatch(target, s2.latest, envs[i].arrivals).seen)
                  else s2
    {
      var e := envs[i];
      bus.PublishAll(e.before);
      if EqualsIgnoreCase(bus.latest, target) {
        AppendNil(calls);
        return true;
      }
      var action := ActionFor(target);
      calls := calls + [action];
      bus.PublishAll(e.during);
      finished := false;
      if e.clicked {
        finished := AwaitConfirmation(target, e.arrivals);
      }
    }
  }

  function WithCalls(done: seq<Action>, e: Ending): Ending {
    e.(calls := done + e.calls)
  }

  lemma WithCallsStep(done: seq<Action>, a: Action, e: Ending)
    ensures WithCalls(done, WithCall(a, e)) == WithCalls(done + [a], e)
  {
    assert done + ([a] + e.calls) == (done + [a]) + e.calls;
  }

  lemma AppendNil<T>(s: seq<T>)
    ensures s + [] == s
  {
  }
}
