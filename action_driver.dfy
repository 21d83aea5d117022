/** The action driver: one admitted automation sequence against the lock application
    (performActionInternal and waitForStateChange).

    The platform is replaced by inputs. `interactive` is the power manager's answer. Each
    read of the active window's root returns the next element of `screens`. A read past
    the end of `screens` finds no window. Time is counted in reads: every wait becomes a
    budget of polls at its retry interval. Taps are recorded on the service, and status
    publications go to the status bus.

    The driver consults a screen only through the classifier's answers about it, gathered
    here in a Reading. The step-by-step definition of an invocation (ActionRun) is a
    function of the sequence of readings; the service's methods query the screens
    themselves and are proved to follow ActionRun on rs. */
module ActionDriver {
  import opened Wrappers
  import opened ScreenTree
  import opened DoorClassifier
  import opened LockStatus

  const YkkPackageName: string := "com.alpha.lockapp"

  /** Reads of the main wait: MAX_WAIT_TIME_MS / RETRY_INTERVAL_MS = 20000 / 500. */
  const MaxWaitPolls: nat := 40
  /** Reads of the post-tap wait: POST_CLICK_CONFIRMATION_TIMEOUT_MS / RETRY_INTERVAL_MS = 8000 / 500. */
  const ConfirmationPolls: nat := 16
  /** Reads of launchApp's wait for the application's window: 5000 / 200. */
  const LaunchPolls: nat := 25

  const Unavailable: string := "UNAVAILABLE"

  datatype Action = Lock | Unlock | CheckStatus | DumpViewHierarchy

  /** One read of the active window: its root (None when there is none), the package the
      root belongs to, and the clock at that moment. */
  datatype Screen = Screen(root: Option<Node>, packageName: string, clock: int)

  /** A click on the node at `node` of the screen read at position `screen`. */
  datatype Tap = Tap(screen: nat, node: Path)

  /** The effect of (part of) an invocation: its boolean result, the taps performed, the
      statuses published, and the position of the next read. */
  datatype Run = Run(ok: bool, taps: seq<Tap>, pubs: seq<Publication>, next: nat)

  function ScreenAt(screens: seq<Screen>, i: nat): Screen {
    if i < |screens| then screens[i] else Screen(None, "", 0)
  }

  predicate InForeground(s: Screen) {
    s.root.Some? && s.packageName == YkkPackageName
  }

  /** What updateStatusFromNode publishes for this screen. */
  function StatusPublication(s: Screen): Publication
    requires s.root.Some?
  {
    Publication(StatusOf(s.root.value), s.clock)
  }

  /** The status text waitForStateChange waits for; none for the other actions. */
  function ExpectedText(action: Action): Option<string> {
    match action
    case Lock => Some(LockedStatusText)
    case Unlock => Some(UnlockedStatusText)
    case CheckStatus => None
    case DumpViewHierarchy => None
  }

  predicate ShowsExpected(s: Screen, text: string) {
    s.root.Some? && FindNodeByText(s.root, text).Some?
  }

  /** LOCK taps the first unlabelled button, anything else the second. */
  function ButtonIndex(action: Action): nat {
    if action == Lock then 0 else 1
  }

  function Min(a: nat, b: nat): nat {
    if a < b then a else b
  }

  // ---- what the driver learns from one read ----

  /** The classifier's answers about one screen: whether the lock application is in the
      foreground, its door state, the status updateStatusFromNode would publish (empty
      without a window, where nothing is published), the lock and unlock buttons, the
      wake-up control, whether each confirmation text is shown, and the clock. */
  datatype Reading = Reading(
    foreground: bool,
    state: DoorState,
    status: string,
    buttons: seq<Path>,
    wake: Option<Path>,
    showsLocked: bool,
    showsUnlocked: bool,
    clock: int)

  function Read(s: Screen): Reading {
    Reading(
      InForeground(s),
      DetermineDoorState(s.root),
      if s.root.Some? then StatusOf(s.root.value) else "",
      ActionableButtons(s.root),
      FindClickableNodeByDescription(s.root, WakeUpButtonDesc),
      ShowsExpected(s, LockedStatusText),
      ShowsExpected(s, UnlockedStatusText),
      s.clock)
  }

  /** The reading of a read that finds no window. */
  const NoWindow: Reading := Reading(false, Unknown, "", [], None, false, false, 0)

  function Readings(screens: seq<Screen>): seq<Reading> {
    seq(|screens|, i requires 0 <= i < |screens| => Read(screens[i]))
  }

  function ReadingAt(rs: seq<Reading>, i: nat): Reading {
    if i < |rs| then rs[i] else NoWindow
  }

  function Publish(r: Reading): Publication {
    Publication(r.status, r.clock)
  }

  /** The reading shows the text `action` waits for. */
  predicate Confirms(r: Reading, action: Action) {
    (action == Lock && r.showsLocked) || (action == Unlock && r.showsUnlocked)
  }

  /** A read that keeps the polling loop going: an unrecognised screen, or a sleeping one
      with a wake-up button to tap. */
  predicate KeepsPolling(r: Reading) {
    r.state == Unknown || (r.state == Sleep && r.wake.Some?)
  }

  function WithTaps(t: seq<Tap>, r: Run): Run {
    r.(taps := t + r.taps)
  }

  function WithPubs(p: seq<Publication>, r: Run): Run {
    r.(pubs := p + r.pubs)
  }

  // ---- the invocation, one read at a time ----

  /** The confirmation loop of LOCK or UNLOCK: at most `polls` reads, from read `c`. */
  function ConfirmationRun(action: Action, rs: seq<Reading>, c: nat, polls: nat): Run
    decreases polls
  {
    if polls == 0 then Run(false, [], [], c)
    else if Confirms(ReadingAt(rs, c), action)
    then Run(true, [], [Publish(ReadingAt(rs, c))], c + 1)
    else ConfirmationRun(action, rs, c + 1, polls - 1)
  }

  /** waitForStateChange: only LOCK and UNLOCK wait. */
  function StateChangeRun(action: Action, rs: seq<Reading>, c: nat, polls: nat): Run {
    if ExpectedText(action).None? then Run(true, [], [], c)
    else ConfirmationRun(action, rs, c, polls)
  }

  /** launchApp's wait: the read after the first one showing the application in the
      foreground, or the end of the budget; either way the sequence carries on. */
  function LaunchWaitEnd(rs: seq<Reading>, c: nat, polls: nat): nat
    decreases polls
  {
    if polls == 0 then c
    else if ReadingAt(rs, c).foreground then c + 1
    else LaunchWaitEnd(rs, c + 1, polls - 1)
  }

  /** The full path's polling loop from its `k`-th read (at read position `c`). The
      post-tap wait runs inside the same overall timeout, so it gets at most the reads
      that remain; when those are fewer than its own budget, the overall timeout fires
      first. */
  function AwaitReadyRun(action: Action, rs: seq<Reading>, c: nat, k: nat): Run
    requires k <= MaxWaitPolls
    decreases MaxWaitPolls - k
  {
    var r := ReadingAt(rs, c);
    if k == MaxWaitPolls then Run(false, [], [Publication(Unavailable, r.clock)], c)
    else
      match r.state
      case Disconnected => Run(false, [], [Publication(Unavailable, r.clock)], c + 1)
      case Sleep =>
        (match r.wake
         case None => Run(false, [], [], c + 1)
         case Some(wake) => WithTaps([Tap(c, wake)], AwaitReadyRun(action, rs, c + 1, k + 1)))
      case Unknown => AwaitReadyRun(action, rs, c + 1, k + 1)
      case Available => AvailableRun(action, rs, c, k)
  }

  /** The `k`-th read of the polling loop found the application available: publish its
      status; a status check is done; otherwise tap the action's button, if present, and
      wait for confirmation. */
  function AvailableRun(action: Action, rs: seq<Reading>, c: nat, k: nat): Run
    requires k < MaxWaitPolls
  {
    var r := ReadingAt(rs, c);
    var status := Publish(r);
    if action == CheckStatus then Run(true, [], [status], c + 1)
    else
      var i := ButtonIndex(action);
      if i >= |r.buttons| then Run(false, [], [status], c + 1)
      else
        var left := MaxWaitPolls - k;
        var w := StateChangeRun(action, rs, c + 1, Min(ConfirmationPolls, left));
        var timedOut := !w.ok && left <= ConfirmationPolls;
        Run(w.ok, [Tap(c, r.buttons[i])],
            [status] + w.pubs +
            (if timedOut then [Publication(Unavailable, ReadingAt(rs, w.next).clock)] else []),
            w.next)
  }

  /** The full path from read `c`: launch, then dump or poll. */
  function FullPathRun(action: Action, rs: seq<Reading>, c: nat): Run {
    var launched := LaunchWaitEnd(rs, c, LaunchPolls);
    if action == DumpViewHierarchy then Run(true, [], [], launched + 1)
    else AwaitReadyRun(action, rs, launched, 0)
  }

  /** The fast path applies when the device is interactive and the first read shows the
      application available. */
  predicate FastPathApplies(interactive: bool, rs: seq<Reading>) {
    interactive && ReadingAt(rs, 0).foreground && ReadingAt(rs, 0).state == Available
  }

  /** The full path (and with it the wake lock) is taken unless the fast path finishes:
      a status check, or a lock or unlock whose button is present. */
  predicate TakesFullPath(action: Action, interactive: bool, rs: seq<Reading>) {
    !FastPathApplies(interactive, rs) ||
    (action != CheckStatus &&
     !((action == Lock || action == Unlock) && ButtonIndex(action) < |ReadingAt(rs, 0).buttons|))
  }

  /** The whole invocation. */
  function ActionRun(action: Action, interactive: bool, rs: seq<Reading>): Run {
    if !interactive then FullPathRun(action, rs, 0)
    else if !FastPathApplies(interactive, rs) then FullPathRun(action, rs, 1)
    else
      var r := ReadingAt(rs, 0);
      var status := Publish(r);
      if action == CheckStatus then Run(true, [], [status], 1)
      else
        var i := ButtonIndex(action);
        if (action == Lock || action == Unlock) && i < |r.buttons| then
          var w := StateChangeRun(action, rs, 1, ConfirmationPolls);
          Run(w.ok, [Tap(0, r.buttons[i])], [status] + w.pubs, w.next)
        else
          // no button, or a dump request: fall through to the full path
          WithPubs([status], FullPathRun(action, rs, 1))
  }

  // ---- lemmas the methods use ----

  /** `rs` holds the classifier's answer about each screen of `screens`, in order. */
  ghost predicate ReadsAs(screens: seq<Screen>, rs: seq<Reading>) {
    |rs| == |screens| && forall i :: 0 <= i < |screens| ==> ReadOf(screens, rs, i)
  }

  /** The i-th reading is the classifier's answer about the i-th screen (kept apart so that
      the answer is worked out only for the reads a proof asks about). */
  ghost predicate ReadOf(screens: seq<Screen>, rs: seq<Reading>, i: nat)
    requires i < |screens| == |rs|
  {
    rs[i] == Read(screens[i])
  }

  lemma ReadingsReadAs(screens: seq<Screen>)
    ensures ReadsAs(screens, Readings(screens))
  {
    var rs := Readings(screens);
    forall i | 0 <= i < |screens|
      ensures ReadOf(screens, rs, i)
    {
    }
  }

  /** The reading the driver takes from the i-th read is the classifier's answer about
      that screen; a read past the end finds no window. */
  lemma ReadingAtScreen(screens: seq<Screen>, rs: seq<Reading>, i: nat)
    requires ReadsAs(screens, rs)
    ensures ReadingAt(rs, i) == Read(ScreenAt(screens, i))
  {
    if i >= |screens| {
      assert DetermineDoorState(None) == Unknown;
      assert ActionableButtons(None) == [];
      assert FindNodeByDescription(None, WakeUpButtonDesc, Exact) == None;
    } else {
      assert ReadOf(screens, rs, i);
    }
  }

  // One lemma per field, so that a proof about one query does not unfold the others.

  lemma ReadForeground(screens: seq<Screen>, rs: seq<Reading>, i: nat)
    requires ReadsAs(screens, rs)
    ensures ReadingAt(rs, i).foreground == InForeground(ScreenAt(screens, i))
  {
    ReadingAtScreen(screens, rs, i);
  }

  lemma ReadState(screens: seq<Screen>, rs: seq<Reading>, i: nat)
    requires ReadsAs(screens, rs)
    ensures ReadingAt(rs, i).state == DetermineDoorState(ScreenAt(screens, i).root)
  {
    ReadingAtScreen(screens, rs, i);
  }

  lemma ReadClock(screens: seq<Screen>, rs: seq<Reading>, i: nat)
    requires ReadsAs(screens, rs)
    ensures ReadingAt(rs, i).clock == ScreenAt(screens, i).clock
  {
    ReadingAtScreen(screens, rs, i);
  }

  lemma ReadButtons(screens: seq<Screen>, rs: seq<Reading>, i: nat)
    requires ReadsAs(screens, rs)
    ensures ReadingAt(rs, i).buttons == ActionableButtons(ScreenAt(screens, i).root)
  {
    ReadingAtScreen(screens, rs, i);
  }

  lemma ReadWake(screens: seq<Screen>, rs: seq<Reading>, i: nat)
    requires ReadsAs(screens, rs)
    ensures ReadingAt(rs, i).wake == FindClickableNodeByDescription(ScreenAt(screens, i).root, WakeUpButtonDesc)
  {
    ReadingAtScreen(screens, rs, i);
  }

  /** The publication a reading stands for is the one updateStatusFromNode makes. */
  lemma ReadStatus(screens: seq<Screen>, rs: seq<Reading>, i: nat)
    requires ReadsAs(screens, rs) && ScreenAt(screens, i).root.Some?
    ensures Publish(ReadingAt(rs, i)) == StatusPublication(ScreenAt(screens, i))
  {
    ReadingAtScreen(screens, rs, i);
  }

  lemma ReadConfirms(screens: seq<Screen>, rs: seq<Reading>, i: nat, action: Action)
    requires ReadsAs(screens, rs) && ExpectedText(action).Some?
    ensures Confirms(ReadingAt(rs, i), action) == ShowsExpected(ScreenAt(screens, i), ExpectedText(action).value)
  {
    ReadingAtScreen(screens, rs, i);
  }

  /** One step of the polling loop, by door state (used to keep the loop's proof small). */
  lemma AwaitReadyStep(action: Action, rs: seq<Reading>, c: nat, k: nat)
    requires k < MaxWaitPolls
    ensures var r := ReadingAt(rs, c);
            var run := AwaitReadyRun(action, rs, c, k);
            match r.state
            case Disconnected => run == Run(false, [], [Publication(Unavailable, r.clock)], c + 1)
            case Sleep =>
              (match r.wake
               case None => run == Run(false, [], [], c + 1)
               case Some(wake) => run == WithTaps([Tap(c, wake)], AwaitReadyRun(action, rs, c + 1, k + 1)))
            case Unknown => run == AwaitReadyRun(action, rs, c + 1, k + 1)
            case Available => run == AvailableRun(action, rs, c, k)
  {
  }

  /** The taps of a read that keeps the polling loop going. */
  function PollTaps(rs: seq<Reading>, c: nat): seq<Tap>
    requires KeepsPolling(ReadingAt(rs, c))
  {
    var r := ReadingAt(rs, c);
    if r.state == Sleep then [Tap(c, r.wake.value)] else []
  }

  lemma KeepsPollingStep(action: Action, rs: seq<Reading>, c: nat, k: nat)
    requires k < MaxWaitPolls && KeepsPolling(ReadingAt(rs, c))
    ensures AwaitReadyRun(action, rs, c, k) ==
            WithTaps(PollTaps(rs, c), AwaitReadyRun(action, rs, c + 1, k + 1))
  {
    AwaitReadyStep(action, rs, c, k);
  }

  lemma WithTapsConcat(a: seq<Tap>, b: seq<Tap>, r: Run)
    ensures WithTaps(a, WithTaps(b, r)) == WithTaps(a + b, r)
  {
    AppendAssoc(a, b, r.taps);
  }

  lemma AppendAssoc<T>(a: seq<T>, b: seq<T>, c: seq<T>)
    ensures a + b + c == a + (b + c)
  {
  }

  // ---- the service ----

  class AccessibilityService {
    const bus: StatusBus
    /** Every click performed so far, oldest first. */
    var taps: seq<Tap>
    var wakeLockHeld: bool

    ghost predicate Valid()
      reads this, bus
    {
      bus.Valid() && !wakeLockHeld
    }

    constructor (bus: StatusBus)
      requires bus.Valid()
      ensures Valid() && this.bus == bus && taps == []
    {
      this.bus := bus;
      taps := [];
      wakeLockHeld := false;
    }

    /** updateStatusFromNode: exactly one publication per call. */
    method UpdateStatusFromNode(root: Node, now: int)
      requires bus.Valid()
      modifies bus
      ensures bus.Valid()
      ensures bus.State() == Apply(old(bus.State()), Publication(StatusOf(root), now))
    {
      bus.UpdateLockStatus(StatusOf(root), now);
    }

    /** onAccessibilityEvent: every event from the lock application republishes the status
        of the current screen. */
    method OnAccessibilityEvent(eventPackage: string, root: Option<Node>, now: int)
      requires bus.Valid()
      modifies bus
      ensures bus.Valid()
      ensures bus.State() ==
                if eventPackage == YkkPackageName && root.Some?
                then Apply(old(bus.State()), Publication(StatusOf(root.value), now))
                else old(bus.State())
    {
      if eventPackage != YkkPackageName {
        return;
      }
      if root.Some? {
        UpdateStatusFromNode(root.value, now);
      }
    }

    method WaitForStateChange(action: Action, screens: seq<Screen>, c: nat, polls: nat, ghost rs: seq<Reading>)
      returns (ok: bool, next: nat)
      requires ReadsAs(screens, rs)
      requires bus.Valid()
      modifies bus
      ensures bus.Valid()
      ensures var w := StateChangeRun(action, rs, c, polls);
              ok == w.ok && next == w.next && w.taps == [] &&
              bus.State() == ApplyAll(old(bus.State()), w.pubs)
    {
      var expected := ExpectedText(action);
      if expected.None? {
        return true, c;
      }
      var text := expected.value;
      next := c;
      var left := polls;
      while left > 0
        invariant bus.Valid() && bus.State() == old(bus.State())
        invariant ConfirmationRun(action, rs, next, left) == ConfirmationRun(action, rs, c, polls)
      {
        var s := ScreenAt(screens, next);
        ReadConfirms(screens, rs, next, action);
        if s.root.Some? && FindNodeByText(s.root, text).Some? {
          UpdateStatusFromNode(s.root.value, s.clock);
          ReadStatus(screens, rs, next);
          assert ApplyAll(old(bus.State()), [StatusPublication(s)]) == bus.State();
          return true, next + 1;
        }
        next, left := next + 1, left - 1;
      }
      ok := false;
    }

    /** launchApp's wait for the application's window (the launch itself is platform
        I/O). A timeout here is silent. */
    method LaunchApp(screens: seq<Screen>, c: nat, ghost rs: seq<Reading>) returns (next: nat)
      requires ReadsAs(screens, rs)
      ensures next == LaunchWaitEnd(rs, c, LaunchPolls)
    {
      next := c;
      var left := LaunchPolls;
      while left > 0
        invariant LaunchWaitEnd(rs, next, left) == LaunchWaitEnd(rs, c, LaunchPolls)
      {
        ReadForeground(screens, rs, next);
        if InForeground(ScreenAt(screens, next)) {
          return next + 1;
        }
        next, left := next + 1, left - 1;
      }
    }

    /** The available branch of the polling loop. */
    method ActOnAvailableScreen(action: Action, screens: seq<Screen>, c: nat, k: nat, ghost rs: seq<Reading>)
      returns (ok: bool, next: nat)
      requires ReadsAs(screens, rs)
      requires k < MaxWaitPolls && ScreenAt(screens, c).root.Some?
      requires bus.Valid()
      modifies this, bus
      ensures bus.Valid() && wakeLockHeld == old(wakeLockHeld)
      ensures var r := AvailableRun(action, rs, c, k);
              ok == r.ok && next == r.next && taps == old(taps) + r.taps &&
              bus.State() == ApplyAll(old(bus.State()), r.pubs)
    {
      ghost var status := Publish(ReadingAt(rs, c));
      PublishStatusAt(screens, c, rs);
      assert ApplyAll(old(bus.State()), [status]) == bus.State();
      if action == CheckStatus {
        return true, c + 1;
      }
      var buttons := ButtonsAt(screens, c, rs);
      var i := ButtonIndex(action);
      if i >= |buttons| {
        return false, c + 1;
      }
      taps := taps + [Tap(c, buttons[i])];
      var left := MaxWaitPolls - k;
      ghost var w := StateChangeRun(action, rs, c + 1, Min(ConfirmationPolls, left));
      ok, next := WaitForStateChange(action, screens, c + 1, Min(ConfirmationPolls, left), rs);
      ApplyAllConcat(old(bus.State()), [status], w.pubs);
      if !ok && left <= ConfirmationPolls {
        ghost var mid := bus.State();
        var last := ScreenAt(screens, next);
        ReadClock(screens, rs, next);
        var final := Publication(Unavailable, last.clock);
        bus.UpdateLockStatus(final.status, final.at);
        ApplyAllConcat(old(bus.State()), [status] + w.pubs, [final]);
        assert ApplyAll(mid, [final]) == bus.State();
      } else {
        assert [status] + w.pubs + [] == [status] + w.pubs;
      }
    }

    /** updateStatusFromNode on the screen of read `c`. */
    method PublishStatusAt(screens: seq<Screen>, c: nat, ghost rs: seq<Reading>)
      requires ReadsAs(screens, rs) && ScreenAt(screens, c).root.Some?
      requires bus.Valid()
      modifies bus
      ensures bus.Valid() && bus.State() == Apply(old(bus.State()), Publish(ReadingAt(rs, c)))
    {
      var s := ScreenAt(screens, c);
      ReadStatus(screens, rs, c);
      UpdateStatusFromNode(s.root.value, s.clock);
    }

    /** findActionableLockUnlockButtons on the screen of read `c`. */
    method ButtonsAt(screens: seq<Screen>, c: nat, ghost rs: seq<Reading>) returns (buttons: seq<Path>)
      requires ReadsAs(screens, rs)
      ensures buttons == ReadingAt(rs, c).buttons
    {
      ReadButtons(screens, rs, c);
      buttons := FindActionableLockUnlockButtons(ScreenAt(screens, c).root);
    }

    /** determineDoorState on the screen of read `c`. */
    method StateAt(screens: seq<Screen>, c: nat, ghost rs: seq<Reading>) returns (state: DoorState)
      requires ReadsAs(screens, rs)
      ensures state == ReadingAt(rs, c).state
      ensures state != Unknown ==> ScreenAt(screens, c).root.Some?
    {
      ReadState(screens, rs, c);
      state := DetermineDoorState(ScreenAt(screens, c).root);
    }

    /** One read of the polling loop that does not end it: on a sleeping screen, tap the
        wake-up button. */
    method PollStep(screens: seq<Screen>, c: nat, ghost rs: seq<Reading>)
      requires ReadsAs(screens, rs)
      requires KeepsPolling(ReadingAt(rs, c))
      modifies this
      ensures taps == old(taps) + PollTaps(rs, c)
      ensures wakeLockHeld == old(wakeLockHeld)
    {
      var s := ScreenAt(screens, c);
      ReadState(screens, rs, c);
      ReadWake(screens, rs, c);
      if DetermineDoorState(s.root) == Sleep {
        var wake := FindClickableNodeByDescription(s.root, WakeUpButtonDesc);
        taps := taps + [Tap(c, wake.value)];
      }
    }

    /** The read that ends the polling loop (or the loop's end): publish and act. */
    method FinishPoll(action: Action, screens: seq<Screen>, c: nat, k: nat, ghost rs: seq<Reading>)
      returns (ok: bool, next: nat)
      requires ReadsAs(screens, rs)
      requires k <= MaxWaitPolls && (k < MaxWaitPolls ==> !KeepsPolling(ReadingAt(rs, c)))
      requires bus.Valid()
      modifies this, bus
      ensures bus.Valid() && wakeLockHeld == old(wakeLockHeld)
      ensures var r := AwaitReadyRun(action, rs, c, k);
              ok == r.ok && next == r.next && taps == old(taps) + r.taps &&
              bus.State() == ApplyAll(old(bus.State()), r.pubs)
    {
      var s := ScreenAt(screens, c);
      ReadClock(screens, rs, c);
      if k == MaxWaitPolls {
        bus.UpdateLockStatus(Unavailable, s.clock);
        assert ApplyAll(old(bus.State()), [Publication(Unavailable, s.clock)]) == bus.State();
        return false, c;
      }
      AwaitReadyStep(action, rs, c, k);
      var state := StateAt(screens, c, rs);
      if state == Disconnected {
        bus.UpdateLockStatus(Unavailable, s.clock);
        assert ApplyAll(old(bus.State()), [Publication(Unavailable, s.clock)]) == bus.State();
        return false, c + 1;
      } else if state == Available {
        ok, next := ActOnAvailableScreen(action, screens, c, k, rs);
      } else {
        // a sleeping screen without a wake-up button
        return false, c + 1;
      }
    }

    /** The full path's polling loop, run while the wake lock is held: keep reading while
        the screen is unrecognised or asleep (tapping the wake-up button), at most
        MaxWaitPolls reads. */
    method AwaitReadyState(action: Action, screens: seq<Screen>, start: nat, ghost rs: seq<Reading>)
      returns (ok: bool, next: nat)
      requires ReadsAs(screens, rs)
      requires bus.Valid() && wakeLockHeld
      modifies this, bus
      ensures bus.Valid() && wakeLockHeld
      ensures var r := AwaitReadyRun(action, rs, start, 0);
              ok == r.ok && next == r.next && taps == old(taps) + r.taps &&
              bus.State() == ApplyAll(old(bus.State()), r.pubs)
    {
      var c, k := start, 0;
      ghost var done: seq<Tap> := [];
      while k < MaxWaitPolls
        invariant k <= MaxWaitPolls
        invariant wakeLockHeld && bus.Valid() && bus.State() == old(bus.State())
        invariant taps == old(taps) + done
        invariant WithTaps(done, AwaitReadyRun(action, rs, c, k)) == AwaitReadyRun(action, rs, start, 0)
        decreases MaxWaitPolls - k
      {
        var keep := KeepsPollingAt(screens, c, rs);
        if !keep {
          break;
        }
        KeepsPollingStep(action, rs, c, k);
        WithTapsConcat(done, PollTaps(rs, c), AwaitReadyRun(action, rs, c + 1, k + 1));
        PollStep(screens, c, rs);
        done := done + PollTaps(rs, c);
        c, k := c + 1, k + 1;
      }
      ghost var rest := AwaitReadyRun(action, rs, c, k);
      ok, next := FinishPoll(action, screens, c, k, rs);
      AppendAssoc(old(taps), done, rest.taps);
    }

    /** Whether the polling loop goes on after this read: the door state, and on a
        sleeping screen whether a wake-up button is there. */
    method KeepsPollingAt(screens: seq<Screen>, c: nat, ghost rs: seq<Reading>) returns (keep: bool)
      requires ReadsAs(screens, rs)
      ensures keep == KeepsPolling(ReadingAt(rs, c))
    {
      var s := ScreenAt(screens, c);
      ReadState(screens, rs, c);
      ReadWake(screens, rs, c);
      var state := DetermineDoorState(s.root);
      keep := state == Unknown ||
              (state == Sleep && FindClickableNodeByDescription(s.root, WakeUpButtonDesc).Some?);
    }

    /** performActionInternal: the fast path, else the full path under the wake lock,
        which is released on every exit. */
    method PerformActionInternal(action: Action, interactive: bool, screens: seq<Screen>, ghost rs: seq<Reading>)
      returns (ok: bool)
      requires ReadsAs(screens, rs)
      requires Valid()
      modifies this, bus
      ensures Valid()
      ensures var r := ActionRun(action, interactive, rs);
              ok == r.ok && taps == old(taps) + r.taps &&
              bus.State() == ApplyAll(old(bus.State()), r.pubs)
    {
      var c := 0;
      ghost var prefix: seq<Publication> := [];
      if interactive {
        var s := ScreenAt(screens, 0);
        ReadForeground(screens, rs, 0);
        var state := StateAt(screens, 0, rs);
        c := 1;
        if InForeground(s) && state == Available {
          prefix := [Publish(ReadingAt(rs, 0))];
          PublishStatusAt(screens, 0, rs);
          assert ApplyAll(old(bus.State()), prefix) == bus.State();
          if action == CheckStatus {
            return true;
          }
          if action == Lock || action == Unlock {
            var buttons := ButtonsAt(screens, 0, rs);
            var i := ButtonIndex(action);
            if i < |buttons| {
              taps := taps + [Tap(0, buttons[i])];
              ghost var w := StateChangeRun(action, rs, 1, ConfirmationPolls);
              var next;
              ok, next := WaitForStateChange(action, screens, 1, ConfirmationPolls, rs);
              ApplyAllConcat(old(bus.State()), prefix, w.pubs);
              return;
            }
          }
        }
      }
      ghost var mid := bus.State();
      wakeLockHeld := true;
      var launched := LaunchApp(screens, c, rs);
      if action == DumpViewHierarchy {
        ok := true;
        assert prefix + [] == prefix;
      } else {
        ghost var r := AwaitReadyRun(action, rs, launched, 0);
        var next;
        ok, next := AwaitReadyState(action, screens, launched, rs);
        ApplyAllConcat(old(bus.State()), prefix, r.pubs);
      }
      if wakeLockHeld {
        wakeLockHeld := false;
      }
    }
  }
}
