/** What one invocation of the action driver does, stated without its step-by-step
    definition: how many screens it reads, which nodes it taps, what a reported success
    means, and what it publishes. The statements are about the readings `rs` the driver
    takes (see ActionDriver.Reading); the last section says what a reading means for the
    screen it was taken from. */
module DriverProperties {
  import opened Wrappers
  import opened ScreenTree
  import opened DoorClassifier
  import opened LockStatus
  import opened ActionDriver

  /** A tap on the wake-up control of a sleeping screen. */
  predicate IsWakeTap(rs: seq<Reading>, t: Tap) {
    var r := ReadingAt(rs, t.screen);
    r.state == Sleep && r.wake == Some(t.node)
  }

  /** A tap on the action's own button (first for LOCK, second otherwise) of an available
      screen. */
  predicate IsButtonTap(action: Action, rs: seq<Reading>, t: Tap) {
    var r := ReadingAt(rs, t.screen);
    r.state == Available && action != CheckStatus &&
    ButtonIndex(action) < |r.buttons| && t.node == r.buttons[ButtonIndex(action)]
  }

  /** Taps on screens read in [lo, hi), one per screen, in reading order; every tap but the
      last wakes the application up, and the last one wakes it up or presses the button. */
  ghost predicate TapsShape(action: Action, rs: seq<Reading>, taps: seq<Tap>, lo: nat, hi: nat) {
    (forall i :: 0 <= i < |taps| ==> lo <= taps[i].screen < hi) &&
    (forall i :: 0 < i < |taps| ==> taps[i - 1].screen < taps[i].screen) &&
    (forall i :: 0 <= i < |taps| - 1 ==> IsWakeTap(rs, taps[i])) &&
    (|taps| > 0 ==> IsWakeTap(rs, taps[|taps| - 1]) || IsButtonTap(action, rs, taps[|taps| - 1]))
  }

  ghost predicate OnlyWakeTaps(rs: seq<Reading>, taps: seq<Tap>) {
    forall i :: 0 <= i < |taps| ==> IsWakeTap(rs, taps[i])
  }

  /** What a run that returns true has done: a status check published the status of an
      available screen last; any other action pressed its button last, and for LOCK and
      UNLOCK the last screen read shows the expected text, whose status was published
      last. */
  ghost predicate Succeeded(action: Action, rs: seq<Reading>, r: Run) {
    r.next > 0 && |r.pubs| > 0 &&
    var last := ReadingAt(rs, r.next - 1);
    if action == CheckStatus then
      last.state == Available && r.pubs[|r.pubs| - 1] == Publish(last)
    else
      |r.taps| > 0 && IsButtonTap(action, rs, r.taps[|r.taps| - 1]) &&
      (ExpectedText(action).Some? ==> Confirms(last, action) && r.pubs[|r.pubs| - 1] == Publish(last))
  }

  // ---- the confirmation wait ----

  /** The confirmation wait succeeds exactly when one of its `polls` screens shows the
      text; it then stops at the first such screen and publishes that screen's status.
      Otherwise it reads all `polls` screens and publishes nothing. It never taps. */
  lemma {:induction false} ConfirmationSpec(action: Action, rs: seq<Reading>, c: nat, polls: nat)
    ensures var r := ConfirmationRun(action, rs, c, polls);
            && r.taps == []
            && c <= r.next <= c + polls
            && (r.ok <==> exists j :: c <= j < c + polls && Confirms(ReadingAt(rs, j), action))
            && (r.ok ==> c < r.next && Confirms(ReadingAt(rs, r.next - 1), action) &&
                         (forall j :: c <= j < r.next - 1 ==> !Confirms(ReadingAt(rs, j), action)) &&
                         r.pubs == [Publish(ReadingAt(rs, r.next - 1))])
            && (!r.ok ==> r.pubs == [] && r.next == c + polls)
    decreases polls
  {
    if polls > 0 && !Confirms(ReadingAt(rs, c), action) {
      ConfirmationSpec(action, rs, c + 1, polls - 1);
      var r := ConfirmationRun(action, rs, c + 1, polls - 1);
      if r.ok {
        var j :| c + 1 <= j < c + 1 + (polls - 1) && Confirms(ReadingAt(rs, j), action);
        assert c <= j < c + polls;
      } else {
        forall j | c <= j < c + polls
          ensures !Confirms(ReadingAt(rs, j), action)
        {
          if j > c {
            assert c + 1 <= j < c + 1 + (polls - 1);
          }
        }
      }
    }
  }

  /** What a waitForStateChange result `w` from read `c` leaves: a dump reads and
      publishes nothing; a true LOCK or UNLOCK stopped on a screen showing its text and
      published that screen's status. */
  ghost predicate Confirmation(action: Action, rs: seq<Reading>, c: nat, w: Run) {
    && c <= w.next
    && (action == DumpViewHierarchy ==> w.pubs == [] && w.next == c)
    && (w.ok && ExpectedText(action).Some? ==>
          c < w.next && Confirms(ReadingAt(rs, w.next - 1), action) &&
          w.pubs == [Publish(ReadingAt(rs, w.next - 1))])
  }

  lemma StateChangeConfirmed(action: Action, rs: seq<Reading>, c: nat, polls: nat)
    ensures Confirmation(action, rs, c, StateChangeRun(action, rs, c, polls))
  {
    StateChangeBounds(action, rs, c, polls);
    if ExpectedText(action).Some? {
      ConfirmationConfirmed(action, rs, c, polls);
    }
  }

  /** How far waitForStateChange reads, without quantifiers. */
  lemma StateChangeBounds(action: Action, rs: seq<Reading>, c: nat, polls: nat)
    ensures var w := StateChangeRun(action, rs, c, polls);
            c <= w.next <= c + polls
  {
    StateChangeSpec(action, rs, c, polls);
  }

  /** The success half of ConfirmationSpec, without quantifiers. */
  lemma ConfirmationConfirmed(action: Action, rs: seq<Reading>, c: nat, polls: nat)
    ensures var r := ConfirmationRun(action, rs, c, polls);
            r.ok ==> c < r.next && Confirms(ReadingAt(rs, r.next - 1), action) &&
                     r.pubs == [Publish(ReadingAt(rs, r.next - 1))]
  {
    ConfirmationSpec(action, rs, c, polls);
  }

  /** waitForStateChange: LOCK and UNLOCK wait for their text; any other action returns
      true at once, reading and publishing nothing. */
  lemma StateChangeSpec(action: Action, rs: seq<Reading>, c: nat, polls: nat)
    ensures var w := StateChangeRun(action, rs, c, polls);
            && w.taps == []
            && c <= w.next <= c + polls
            && (action == CheckStatus || action == DumpViewHierarchy ==> w == Run(true, [], [], c))
            && (action == Lock || action == Unlock ==>
                  (w.ok <==> exists j :: c <= j < c + polls && Confirms(ReadingAt(rs, j), action)))
            && (w.ok && ExpectedText(action).Some? ==>
                  c < w.next && Confirms(ReadingAt(rs, w.next - 1), action) &&
                  w.pubs == [Publish(ReadingAt(rs, w.next - 1))])
            && (!w.ok ==> w.pubs == [] && w.next == c + polls)
  {
    if ExpectedText(action).Some? {
      ConfirmationSpec(action, rs, c, polls);
    }
  }

  // ---- the launch wait ----

  /** launchApp's wait ends right after the first foreground screen among its `polls`
      reads; without one it reads them all and carries on silently. */
  lemma {:induction false} LaunchWaitSpec(rs: seq<Reading>, c: nat, polls: nat)
    ensures var e := LaunchWaitEnd(rs, c, polls);
            && c <= e <= c + polls
            && ((exists j :: c <= j < c + polls && ReadingAt(rs, j).foreground) ==>
                  c < e && ReadingAt(rs, e - 1).foreground &&
                  forall j :: c <= j < e - 1 ==> !ReadingAt(rs, j).foreground)
            && ((forall j :: c <= j < c + polls ==> !ReadingAt(rs, j).foreground) ==> e == c + polls)
    decreases polls
  {
    if polls > 0 && !ReadingAt(rs, c).foreground {
      LaunchWaitSpec(rs, c + 1, polls - 1);
      if exists j :: c <= j < c + polls && ReadingAt(rs, j).foreground {
        var j :| c <= j < c + polls && ReadingAt(rs, j).foreground;
        assert c + 1 <= j < c + 1 + (polls - 1);
      }
    }
  }

  // ---- the polling loop ----

  lemma ConsTap(action: Action, rs: seq<Reading>, t: Tap, taps: seq<Tap>, lo: nat, hi: nat)
    requires IsWakeTap(rs, t) && t.screen == lo && lo < hi
    requires TapsShape(action, rs, taps, lo + 1, hi)
    ensures TapsShape(action, rs, [t] + taps, lo, hi)
  {
    var all := [t] + taps;
    assert forall i :: 0 < i < |all| ==> all[i] == taps[i - 1];
    if |taps| > 0 {
      assert all[|all| - 1] == taps[|taps| - 1];
    }
  }

  lemma ConsWake(rs: seq<Reading>, t: Tap, taps: seq<Tap>)
    requires IsWakeTap(rs, t) && OnlyWakeTaps(rs, taps)
    ensures OnlyWakeTaps(rs, [t] + taps)
  {
    assert forall i :: 0 < i < |[t] + taps| ==> ([t] + taps)[i] == taps[i - 1];
  }

  lemma ConsSucceeded(action: Action, rs: seq<Reading>, t: Tap, r: Run)
    requires Succeeded(action, rs, r)
    ensures Succeeded(action, rs, WithTaps([t], r))
  {
    var r2 := WithTaps([t], r);
    assert r2.next == r.next && r2.pubs == r.pubs;
    if |r.taps| > 0 {
      assert r2.taps[|r2.taps| - 1] == r.taps[|r.taps| - 1];
    }
  }

  /** What the polling loop guarantees from its `k`-th read at position `c`: it reads at
      most MaxWaitPolls - k + 1 more screens (the post-tap wait shares the loop's budget,
      and its first read follows the tap at once), its taps have the shape above (a status
      check only ever wakes the application up), and a true result means Succeeded. */
  ghost predicate LoopRunSpec(action: Action, rs: seq<Reading>, c: nat, k: nat, r: Run) {
    c <= r.next <= c + (MaxWaitPolls - k) + 1 &&
    TapsShape(action, rs, r.taps, c, r.next) &&
    (action == CheckStatus ==> OnlyWakeTaps(rs, r.taps)) &&
    (r.ok ==> Succeeded(action, rs, r))
  }

  lemma LoopSpecFromNext(action: Action, rs: seq<Reading>, c: nat, k: nat, r: Run)
    requires k < MaxWaitPolls && LoopRunSpec(action, rs, c + 1, k + 1, r)
    ensures LoopRunSpec(action, rs, c, k, r)
  {
  }

  lemma SleepStep(action: Action, rs: seq<Reading>, c: nat, k: nat, t: Tap, rest: Run)
    requires k < MaxWaitPolls && t.screen == c && IsWakeTap(rs, t)
    requires LoopRunSpec(action, rs, c + 1, k + 1, rest)
    ensures LoopRunSpec(action, rs, c, k, WithTaps([t], rest))
  {
    ConsTap(action, rs, t, rest.taps, c, rest.next);
    if action == CheckStatus {
      ConsWake(rs, t, rest.taps);
    }
    if rest.ok {
      ConsSucceeded(action, rs, t, rest);
    }
  }

  lemma SingleButtonTap(action: Action, rs: seq<Reading>, t: Tap, lo: nat, hi: nat)
    requires IsButtonTap(action, rs, t) && lo <= t.screen < hi
    ensures TapsShape(action, rs, [t], lo, hi)
  {
  }

  /** Pressing the button of an available screen and then seeing the confirmation is a
      success. */
  lemma ButtonRunSucceeded(action: Action, rs: seq<Reading>, c: nat, b: Path, polls: nat, status: Publication)
    requires action != CheckStatus && IsButtonTap(action, rs, Tap(c, b))
    ensures var w := StateChangeRun(action, rs, c + 1, polls);
            w.ok ==> Succeeded(action, rs, Run(true, [Tap(c, b)], [status] + w.pubs, w.next))
  {
    var w := StateChangeRun(action, rs, c + 1, polls);
    StateChangeConfirmed(action, rs, c + 1, polls);
    if w.ok {
      ConfirmedButtonRun(action, rs, c, b, w, status);
    }
  }

  /** Succeeded for an action other than a status check, from its parts. */
  lemma ButtonSucceededIntro(action: Action, rs: seq<Reading>, r: Run, last: Reading)
    requires action != CheckStatus && r.next > 0 && |r.pubs| > 0 && |r.taps| > 0
    requires last == ReadingAt(rs, r.next - 1)
    requires IsButtonTap(action, rs, r.taps[|r.taps| - 1])
    requires ExpectedText(action).Some? ==>
               Confirms(last, action) && r.pubs[|r.pubs| - 1] == Publish(last)
    ensures Succeeded(action, rs, r)
  {
  }

  lemma ConfirmedButtonRun(action: Action, rs: seq<Reading>, c: nat, b: Path, w: Run, status: Publication)
    requires action != CheckStatus && IsButtonTap(action, rs, Tap(c, b))
    requires w.ok && Confirmation(action, rs, c + 1, w)
    ensures Succeeded(action, rs, Run(true, [Tap(c, b)], [status] + w.pubs, w.next))
  {
    var r := Run(true, [Tap(c, b)], [status] + w.pubs, w.next);
    assert r.next > 0 && r.taps[0] == Tap(c, b);
    LastPub(status, w.pubs);
    ButtonSucceededIntro(action, rs, r, ReadingAt(rs, w.next - 1));
  }

  lemma LastPub(status: Publication, pubs: seq<Publication>)
    ensures var all := [status] + pubs;
            |all| > 0 && all[|all| - 1] == if pubs == [] then status else pubs[|pubs| - 1]
  {
  }

  /** An available screen in the polling loop: the only tap it may make is the action's own
      button on that screen. A status check publishes the screen's status and succeeds; a
      screen with too few buttons publishes its status, taps nothing and fails. */
  lemma AvailableStep(action: Action, rs: seq<Reading>, c: nat, k: nat)
    requires k < MaxWaitPolls && ReadingAt(rs, c).state == Available
    ensures LoopRunSpec(action, rs, c, k, AvailableRun(action, rs, c, k))
    ensures var run := AvailableRun(action, rs, c, k);
            && |run.taps| <= 1
            && (forall t :: t in run.taps ==> t.screen == c && IsButtonTap(action, rs, t))
    ensures action == CheckStatus ==>
              AvailableRun(action, rs, c, k) == Run(true, [], [Publish(ReadingAt(rs, c))], c + 1)
    ensures action != CheckStatus && ButtonIndex(action) >= |ReadingAt(rs, c).buttons| ==>
              AvailableRun(action, rs, c, k) == Run(false, [], [Publish(ReadingAt(rs, c))], c + 1)
  {
    var r := ReadingAt(rs, c);
    if action != CheckStatus {
      var i := ButtonIndex(action);
      if i < |r.buttons| {
        var left := MaxWaitPolls - k;
        var polls := Min(ConfirmationPolls, left);
        var w := StateChangeRun(action, rs, c + 1, polls);
        StateChangeSpec(action, rs, c + 1, polls);
        var t := Tap(c, r.buttons[i]);
        assert IsButtonTap(action, rs, t);
        SingleButtonTap(action, rs, t, c, w.next);
        ButtonRunSucceeded(action, rs, c, r.buttons[i], polls, Publish(r));
        if w.ok {
          assert [Publish(r)] + w.pubs + [] == [Publish(r)] + w.pubs;
        }
      }
    }
  }

  /** The polling loop satisfies LoopRunSpec from every read. */
  lemma {:induction false} AwaitReadySpec(action: Action, rs: seq<Reading>, c: nat, k: nat)
    requires k <= MaxWaitPolls
    ensures LoopRunSpec(action, rs, c, k, AwaitReadyRun(action, rs, c, k))
    decreases MaxWaitPolls - k
  {
    if k < MaxWaitPolls {
      var r := ReadingAt(rs, c);
      AwaitReadyStep(action, rs, c, k);
      var rest := AwaitReadyRun(action, rs, c + 1, k + 1);
      if r.state == Unknown {
        AwaitReadySpec(action, rs, c + 1, k + 1);
        LoopSpecFromNext(action, rs, c, k, rest);
      } else if r.state == Sleep {
        if r.wake.Some? {
          AwaitReadySpec(action, rs, c + 1, k + 1);
          SleepStep(action, rs, c, k, Tap(c, r.wake.value), rest);
        }
      } else if r.state == Available {
        AvailableStep(action, rs, c, k);
      }
    }
  }

  /** An application that never leaves an unrecognised screen exhausts the loop's budget:
      nothing is tapped, every allotted screen is read, UNAVAILABLE is published and the
      result is false. */
  lemma {:induction false} AllUnknownTimesOut(action: Action, rs: seq<Reading>, c: nat, k: nat)
    requires k <= MaxWaitPolls
    requires forall j :: c <= j < c + (MaxWaitPolls - k) ==> ReadingAt(rs, j).state == Unknown
    ensures AwaitReadyRun(action, rs, c, k) ==
            Run(false, [], [Publication(Unavailable, ReadingAt(rs, c + (MaxWaitPolls - k)).clock)],
                c + (MaxWaitPolls - k))
    decreases MaxWaitPolls - k
  {
    if k < MaxWaitPolls {
      AwaitReadyStep(action, rs, c, k);
      AllUnknownTimesOut(action, rs, c + 1, k + 1);
    }
  }

  /** However the 40 reads are spent on screens that keep the loop polling (unrecognised
      screens, or sleeping ones whose wake-up tap does not take), the loop reads them all,
      taps only wake-up controls, publishes UNAVAILABLE once and fails. */
  lemma {:induction false} PollingExhausts(action: Action, rs: seq<Reading>, c: nat, k: nat)
    requires k <= MaxWaitPolls
    requires forall j :: c <= j < c + (MaxWaitPolls - k) ==> KeepsPolling(ReadingAt(rs, j))
    ensures var r := AwaitReadyRun(action, rs, c, k);
            && !r.ok
            && r.next == c + (MaxWaitPolls - k)
            && r.pubs == [Publication(Unavailable, ReadingAt(rs, c + (MaxWaitPolls - k)).clock)]
            && OnlyWakeTaps(rs, r.taps)
    decreases MaxWaitPolls - k
  {
    if k < MaxWaitPolls {
      KeepsPollingStep(action, rs, c, k);
      PollingExhausts(action, rs, c + 1, k + 1);
      if ReadingAt(rs, c).state == Sleep {
        ConsWake(rs, Tap(c, ReadingAt(rs, c).wake.value), AwaitReadyRun(action, rs, c + 1, k + 1).taps);
      }
    }
  }

  /** The polling loop's two other early exits: a connection error publishes UNAVAILABLE
      and fails without tapping; a sleeping screen without a wake-up control fails without
      tapping or publishing. */
  lemma EarlyExits(action: Action, rs: seq<Reading>, c: nat, k: nat)
    requires k < MaxWaitPolls
    ensures var r := ReadingAt(rs, c);
            r.state == Disconnected ==>
              AwaitReadyRun(action, rs, c, k) == Run(false, [], [Publication(Unavailable, r.clock)], c + 1)
    ensures var r := ReadingAt(rs, c);
            r.state == Sleep && r.wake.None? ==>
              AwaitReadyRun(action, rs, c, k) == Run(false, [], [], c + 1)
  {
    AwaitReadyStep(action, rs, c, k);
  }

  /** A confirmation that does not come within the reads left of the overall budget ends
      the invocation with UNAVAILABLE after the button's status: the overall timeout. */
  lemma ConfirmationTimesOut(action: Action, rs: seq<Reading>, c: nat, k: nat)
    requires k < MaxWaitPolls && MaxWaitPolls - k <= ConfirmationPolls
    requires (action == Lock || action == Unlock) && ReadingAt(rs, c).state == Available
    requires ButtonIndex(action) < |ReadingAt(rs, c).buttons|
    requires forall j :: c < j <= c + (MaxWaitPolls - k) ==> !Confirms(ReadingAt(rs, j), action)
    ensures var end := c + 1 + (MaxWaitPolls - k);
            AwaitReadyRun(action, rs, c, k) ==
            Run(false, [Tap(c, ReadingAt(rs, c).buttons[ButtonIndex(action)])],
                [Publish(ReadingAt(rs, c)), Publication(Unavailable, ReadingAt(rs, end).clock)], end)
  {
    AwaitReadyStep(action, rs, c, k);
    var left := MaxWaitPolls - k;
    assert Min(ConfirmationPolls, left) == left;
    StateChangeSpec(action, rs, c + 1, left);
    var w := StateChangeRun(action, rs, c + 1, left);
    assert w.pubs == [] && w.next == c + 1 + left;
    var r := ReadingAt(rs, c);
    assert [Publish(r)] + w.pubs + [Publication(Unavailable, ReadingAt(rs, w.next).clock)] ==
           [Publish(r), Publication(Unavailable, ReadingAt(rs, w.next).clock)];
  }

  // ---- the whole invocation ----

  /** The full path from read `c`: the launch wait, then a dump (true, no tap, no
      publication) or the polling loop. */
  lemma FullPathSpec(action: Action, rs: seq<Reading>, c: nat)
    ensures var r := FullPathRun(action, rs, c);
            && c <= r.next <= c + LaunchPolls + MaxWaitPolls + 1
            && TapsShape(action, rs, r.taps, c, r.next)
            && (action == CheckStatus ==> OnlyWakeTaps(rs, r.taps))
            && (action == DumpViewHierarchy ==> r.ok && r.taps == [] && r.pubs == [])
            && (r.ok && action != DumpViewHierarchy ==> Succeeded(action, rs, r))
  {
    LaunchWaitSpec(rs, c, LaunchPolls);
    AwaitReadySpec(action, rs, LaunchWaitEnd(rs, c, LaunchPolls), 0);
  }

  /** The fast path's result when it finishes the invocation, read off ActionRun. */
  lemma FastPathOutcome(action: Action, interactive: bool, rs: seq<Reading>)
    requires !TakesFullPath(action, interactive, rs)
    ensures var first := ReadingAt(rs, 0);
            var r := ActionRun(action, interactive, rs);
            && first.state == Available
            && (action == CheckStatus ==> r == Run(true, [], [Publish(first)], 1))
            && (action != CheckStatus ==>
                  var w := StateChangeRun(action, rs, 1, ConfirmationPolls);
                  && (action == Lock || action == Unlock) && ButtonIndex(action) < |first.buttons|
                  && r == Run(w.ok, [Tap(0, first.buttons[ButtonIndex(action)])], [Publish(first)] + w.pubs, w.next))
  {
  }

  /** Pressing the action's button on read `c` and waiting `polls` reads for
      confirmation. */
  lemma ButtonRunSpec(action: Action, rs: seq<Reading>, c: nat, b: Path, polls: nat, status: Publication)
    requires action != CheckStatus && IsButtonTap(action, rs, Tap(c, b))
    ensures var w := StateChangeRun(action, rs, c + 1, polls);
            var r := Run(w.ok, [Tap(c, b)], [status] + w.pubs, w.next);
            && c + 1 <= r.next <= c + 1 + polls
            && TapsShape(action, rs, r.taps, c, r.next)
            && (r.ok ==> Succeeded(action, rs, r))
  {
    var w := StateChangeRun(action, rs, c + 1, polls);
    StateChangeBounds(action, rs, c + 1, polls);
    SingleButtonTap(action, rs, Tap(c, b), c, w.next);
    ButtonRunSucceeded(action, rs, c, b, polls, status);
  }

  /** The fast path when it finishes the invocation: a status check publishes the first
      screen's status; LOCK and UNLOCK press their button on it and wait for confirmation. */
  lemma FastPathSpec(action: Action, interactive: bool, rs: seq<Reading>)
    requires !TakesFullPath(action, interactive, rs)
    ensures var r := ActionRun(action, interactive, rs);
            && 1 <= r.next <= 1 + ConfirmationPolls
            && TapsShape(action, rs, r.taps, 0, r.next)
            && (action == CheckStatus ==> r.taps == [])
            && action != DumpViewHierarchy
            && (r.ok ==> Succeeded(action, rs, r))
  {
    FastPathOutcome(action, interactive, rs);
    var first := ReadingAt(rs, 0);
    if action != CheckStatus {
      var t := Tap(0, first.buttons[ButtonIndex(action)]);
      assert IsButtonTap(action, rs, t);
      ButtonRunSpec(action, rs, 0, t.node, ConfirmationPolls, Publish(first));
    }
  }

  lemma SucceededWithPubs(action: Action, rs: seq<Reading>, p: seq<Publication>, r: Run)
    requires Succeeded(action, rs, r)
    ensures Succeeded(action, rs, WithPubs(p, r))
  {
    var r2 := WithPubs(p, r);
    assert r2.taps == r.taps && r2.next == r.next && |r2.pubs| > 0;
    assert r2.pubs[|r2.pubs| - 1] == r.pubs[|r.pubs| - 1];
  }

  /** An invocation reads at most one fast-path screen, the launch wait's screens and the
      polling loop's budget. */
  lemma ActionRunReads(action: Action, interactive: bool, rs: seq<Reading>)
    ensures ActionRun(action, interactive, rs).next <= 2 + LaunchPolls + MaxWaitPolls
  {
    FullPathChoice(action, interactive, rs);
    FullPathSpec(action, rs, if interactive then 1 else 0);
  }

  /** Taps of a whole invocation: a dump never taps; a status check only wakes the
      application up; a LOCK or UNLOCK presses at most one button, its own, as its last
      tap. */
  lemma ActionRunTaps(action: Action, interactive: bool, rs: seq<Reading>)
    ensures var r := ActionRun(action, interactive, rs);
            && TapsShape(action, rs, r.taps, 0, r.next)
            && (action == CheckStatus ==> OnlyWakeTaps(rs, r.taps))
            && (action == DumpViewHierarchy ==> r.taps == [])
  {
    FullPathChoice(action, interactive, rs);
    if TakesFullPath(action, interactive, rs) {
      FullPathSpec(action, rs, if interactive then 1 else 0);
    } else {
      FastPathSpec(action, interactive, rs);
    }
  }

  /** A true result from a status check, LOCK or UNLOCK means Succeeded; a dump always
      returns true, and publishes only the fast path's status when the fast path applied. */
  lemma ActionRunSuccess(action: Action, interactive: bool, rs: seq<Reading>)
    ensures var r := ActionRun(action, interactive, rs);
            && (r.ok && action != DumpViewHierarchy ==> Succeeded(action, rs, r))
            && (action == DumpViewHierarchy ==>
                  r.ok && r.taps == [] &&
                  r.pubs == if FastPathApplies(interactive, rs) then [Publish(ReadingAt(rs, 0))] else [])
  {
    FullPathChoice(action, interactive, rs);
    var r := ActionRun(action, interactive, rs);
    if TakesFullPath(action, interactive, rs) {
      var full := FullPathRun(action, rs, if interactive then 1 else 0);
      FullPathSpec(action, rs, if interactive then 1 else 0);
      var prefix := if FastPathApplies(interactive, rs) then [Publish(ReadingAt(rs, 0))] else [];
      if r.ok && action != DumpViewHierarchy {
        SucceededWithPubs(action, rs, prefix, full);
      }
      if action == DumpViewHierarchy {
        assert r.pubs == prefix + [];
      }
    } else {
      FastPathSpec(action, interactive, rs);
    }
  }

  /** The full path, with its wake lock, runs exactly when TakesFullPath holds, after the
      fast path's publication when there was one. Otherwise the fast path finishes the
      invocation on the first screen and the confirmation reads after it. */
  lemma FullPathChoice(action: Action, interactive: bool, rs: seq<Reading>)
    ensures var r := ActionRun(action, interactive, rs);
            && (TakesFullPath(action, interactive, rs) ==>
                  r == WithPubs(if FastPathApplies(interactive, rs) then [Publish(ReadingAt(rs, 0))] else [],
                                FullPathRun(action, rs, if interactive then 1 else 0)))
            && (!TakesFullPath(action, interactive, rs) ==>
                  r.next <= 1 + ConfirmationPolls &&
                  forall i :: 0 <= i < |r.taps| ==> r.taps[i].screen == 0)
  {
    StateChangeSpec(action, rs, 1, ConfirmationPolls);
    var full := FullPathRun(action, rs, if interactive then 1 else 0);
    assert [] + full.pubs == full.pubs;
  }

  // ---- what a reading says about its screen ----

  /** The door state of a reading, by what the screen shows: a connection error wins,
      then the sleep header, then either status text; no window reads as unknown. */
  lemma ReadStateSpec(s: Screen)
    ensures s.root.None? ==> Read(s).state == Unknown && !Read(s).foreground
    ensures s.root.Some? ==>
      var n := s.root.value;
      var error := ShowsText(n, ConnectionErrorText);
      var sleep := ShowsDescription(n, SleepModeHeaderSuffix, EndsWith);
      var status := ShowsText(n, LockedStatusText) || ShowsText(n, UnlockedStatusText);
      && (Read(s).state == Disconnected <==> error)
      && (Read(s).state == Sleep <==> !error && sleep)
      && (Read(s).state == Available <==> !error && !sleep && status)
      && (Read(s).state == Unknown <==> !error && !sleep && !status)
  {
    DetermineDoorStatePriority(s.root);
  }

  /** The confirmation texts and the published status of a reading. A reading confirms
      LOCK exactly when its screen shows the locked text, and UNLOCK exactly when it shows
      the unlocked text. The status is LOCKED on an available screen showing the locked
      text (even next to the unlocked text), UNLOCKED on any other available screen,
      UNAVAILABLE on a connection error and UNKNOWN otherwise. */
  lemma ReadStatusSpec(s: Screen)
    ensures Confirms(Read(s), Lock) <==> s.root.Some? && ShowsText(s.root.value, LockedStatusText)
    ensures Confirms(Read(s), Unlock) <==> s.root.Some? && ShowsText(s.root.value, UnlockedStatusText)
    ensures s.root.Some? ==>
      var st := Read(s).status;
      && (st == "LOCKED" <==> Read(s).state == Available && ShowsText(s.root.value, LockedStatusText))
      && (st == "UNLOCKED" <==> Read(s).state == Available && !ShowsText(s.root.value, LockedStatusText))
      && (st == "UNAVAILABLE" <==> Read(s).state == Disconnected)
      && (st == "UNKNOWN" <==> Read(s).state == Sleep || Read(s).state == Unknown)
  {
    if s.root.Some? {
      FindNodeByTextSpec(s.root.value, LockedStatusText);
      FindNodeByTextSpec(s.root.value, UnlockedStatusText);
      StatusOfSpec(s.root.value);
    }
  }

  /** The controls a reading finds: each button is a clickable, unlabelled view group of
      the screen, and the wake-up control is a clickable node of the screen. */
  lemma ReadControlsSpec(s: Screen)
    ensures s.root.None? ==> Read(s).buttons == [] && Read(s).wake.None?
    ensures s.root.Some? ==>
      forall p :: p in Read(s).buttons ==>
        ValidPath(s.root.value, p) && Matches(At(s.root.value, p), ActionableButton)
    ensures Read(s).wake.Some? ==>
      s.root.Some? && ValidPath(s.root.value, Read(s).wake.value) &&
      At(s.root.value, Read(s).wake.value).clickable
  {
    ActionableButtonsSpec(s.root);
    FindClickableNodeByDescriptionSpec(s.root, WakeUpButtonDesc);
    var d := FindNodeByDescription(s.root, WakeUpButtonDesc, Exact);
    var w := Read(s).wake;
    if w.Some? {
      PrefixesValid(s.root.value, d.value);
      assert w.value == d.value[..|w.value|];
    }
  }

  /** A button tap recorded against the readings pressed a clickable, unlabelled view
      group of the screen it was made on. */
  lemma ButtonTapOnScreen(action: Action, screens: seq<Screen>, rs: seq<Reading>, t: Tap)
    requires ReadsAs(screens, rs) && IsButtonTap(action, rs, t)
    ensures var s := ScreenAt(screens, t.screen);
            s.root.Some? && ValidPath(s.root.value, t.node) &&
            Matches(At(s.root.value, t.node), ActionableButton)
  {
    var s := ScreenAt(screens, t.screen);
    ReadingAtScreen(screens, rs, t.screen);
    ReadStateSpec(s);
    ReadControlsSpec(s);
    assert t.node in Read(s).buttons;
  }

  /** A reading that confirms LOCK or UNLOCK comes from a screen showing the action's
      text, and stands for that screen's own status publication. */
  lemma ConfirmedOnScreen(action: Action, screens: seq<Screen>, rs: seq<Reading>, i: nat)
    requires ReadsAs(screens, rs) && (action == Lock || action == Unlock)
    requires Confirms(ReadingAt(rs, i), action)
    ensures var s := ScreenAt(screens, i);
            s.root.Some? && ShowsText(s.root.value, ExpectedText(action).value) &&
            Publish(ReadingAt(rs, i)) == StatusPublication(s)
  {
    var s := ScreenAt(screens, i);
    ReadingAtScreen(screens, rs, i);
    ReadStatusSpec(s);
    ReadStatus(screens, rs, i);
  }

  /** A LOCK or UNLOCK that returns true on `screens`: its last tap pressed a control of
      the screen it was made on, and the last screen read shows the action's text and had
      its status published last. */
  lemma SucceededOnScreens(action: Action, screens: seq<Screen>, rs: seq<Reading>, r: Run)
    requires ReadsAs(screens, rs) && (action == Lock || action == Unlock)
    requires Succeeded(action, rs, r)
    ensures var last := ScreenAt(screens, r.next - 1);
            var t := r.taps[|r.taps| - 1];
            var s := ScreenAt(screens, t.screen);
            && last.root.Some? && ShowsText(last.root.value, ExpectedText(action).value)
            && r.pubs[|r.pubs| - 1] == StatusPublication(last)
            && s.root.Some? && ValidPath(s.root.value, t.node)
            && Matches(At(s.root.value, t.node), ActionableButton)
  {
    ConfirmedOnScreen(action, screens, rs, r.next - 1);
    ButtonTapOnScreen(action, screens, rs, r.taps[|r.taps| - 1]);
  }
}
