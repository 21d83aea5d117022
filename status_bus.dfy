/** The status bus: the replayed lock-status stream and the last-confirmed timestamp that
    the bridge service keeps for every subscriber (MQTT, the web panel, the supervisor). */
module LockStatus {
  import opened Wrappers

  /** The value the stream's replay cache starts with. */
  const InitialStatus: string := "Unknown"

  /** One call of updateLockStatus: the status and the clock reading at that moment. */
  datatype Publication = Publication(status: string, at: int)

  /** Only a real lock state refreshes the timestamp. */
  predicate IsConfirmed(status: string) {
    status == "LOCKED" || status == "UNLOCKED"
  }

  /** The bus as a value: every emission so far, the replayed latest one, the timestamp. */
  datatype BusState = BusState(history: seq<string>, latest: string, lastUpdate: Option<int>)

  ghost predicate WellFormed(s: BusState) {
    |s.history| > 0 && s.latest == s.history[|s.history| - 1]
  }

  function Apply(s: BusState, p: Publication): BusState {
    BusState(s.history + [p.status], p.status,
             if IsConfirmed(p.status) then Some(p.at) else s.lastUpdate)
  }

  function ApplyAll(s: BusState, ps: seq<Publication>): BusState
    decreases |ps|
  {
    if ps == [] then s else Apply(ApplyAll(s, ps[..|ps| - 1]), ps[|ps| - 1])
  }

  function Statuses(ps: seq<Publication>): seq<string> {
    seq(|ps|, i requires 0 <= i < |ps| => ps[i].status)
  }

  /** The latest status once `ps` has been published after a bus whose latest is `latest`. */
  function LatestAfter(latest: string, ps: seq<Publication>): string {
    if ps == [] then latest else ps[|ps| - 1].status
  }

  class StatusBus {
    var history: seq<string>
    var latest: string
    var lastUpdate: Option<int>

    ghost predicate Valid()
      reads this
    {
      WellFormed(State())
    }

    function State(): BusState
      reads this
    {
      BusState(history, latest, lastUpdate)
    }

    constructor ()
      ensures Valid()
      ensures history == [InitialStatus] && latest == InitialStatus && lastUpdate == None
    {
      history := [InitialStatus];
      latest := InitialStatus;
      lastUpdate := None;
    }

    /** updateLockStatus: always emits, even a value equal to the previous one. */
    method UpdateLockStatus(status: string, now: int)
      requires Valid()
      modifies this
      ensures Valid()
      ensures history == old(history) + [status] && latest == status
      ensures lastUpdate == if IsConfirmed(status) then Some(now) else old(lastUpdate)
      ensures State() == Apply(old(State()), Publication(status, now))
    {
      history := history + [status];
      latest := status;
      if status == "LOCKED" || status == "UNLOCKED" {
        lastUpdate := Some(now);
      }
    }

    /** Publishes `ps` one after another. */
    method PublishAll(ps: seq<Publication>)
      requires Valid()
      modifies this
      ensures Valid() && State() == ApplyAll(old(State()), ps)
    {
      for i := 0 to |ps|
        invariant Valid() && State() == ApplyAll(old(State()), ps[..i])
      {
        assert ps[..i + 1][..i] == ps[..i];
        UpdateLockStatus(ps[i].status, ps[i].at);
      }
      assert ps[..|ps|] == ps;
    }
  }

  // ---- lemmas ----

  lemma {:induction false} ApplyAllConcat(s: BusState, a: seq<Publication>, b: seq<Publication>)
    ensures ApplyAll(s, a + b) == ApplyAll(ApplyAll(s, a), b)
    decreases |b|
  {
    if b == [] {
      assert a + b == a;
    } else {
      assert (a + b)[..|a + b| - 1] == a + b[..|b| - 1];
      ApplyAllConcat(s, a, b[..|b| - 1]);
    }
  }

  /** Every publication is appended to the history, with no deduplication, and the
      replayed value is the last one published. */
  lemma {:induction false} ApplyAllEmits(s: BusState, ps: seq<Publication>)
    ensures ApplyAll(s, ps).history == s.history + Statuses(ps)
    ensures ApplyAll(s, ps).latest == LatestAfter(s.latest, ps)
    ensures WellFormed(s) ==> WellFormed(ApplyAll(s, ps))
    decreases |ps|
  {
    if ps != [] {
      var init := ps[..|ps| - 1];
      ApplyAllEmits(s, init);
      assert Statuses(ps) == Statuses(init) + [ps[|ps| - 1].status];
    }
  }

  /** The timestamp moves only on a LOCKED or UNLOCKED publication: publishing any
      number of other statuses leaves it as it was. */
  lemma {:induction false} StampUnchanged(s: BusState, ps: seq<Publication>)
    requires forall i :: 0 <= i < |ps| ==> !IsConfirmed(ps[i].status)
    ensures ApplyAll(s, ps).lastUpdate == s.lastUpdate
    decreases |ps|
  {
    if ps != [] {
      StampUnchanged(s, ps[..|ps| - 1]);
    }
  }

  /** After a LOCKED or UNLOCKED publication, the timestamp is the clock reading of the
      last such publication. */
  lemma {:induction false} StampIsLastConfirmed(s: BusState, ps: seq<Publication>, i: nat)
    requires i < |ps| && IsConfirmed(ps[i].status)
    requires forall j :: i < j < |ps| ==> !IsConfirmed(ps[j].status)
    ensures ApplyAll(s, ps).lastUpdate == Some(ps[i].at)
    decreases |ps|
  {
    if i < |ps| - 1 {
      StampIsLastConfirmed(s, ps[..|ps| - 1], i);
    }
  }
}
