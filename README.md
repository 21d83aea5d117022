# YKK AP lock bridge: a verified model of the decision logic

The lock bridge is an Android application. It drives the vendor's smart-lock
application through the accessibility API and exposes the lock over MQTT and a small
web panel. This project models its decision logic in Dafny and proves what that logic
guarantees. The model has two parts.

**The accessibility service** (`YkkAccessibilityService.kt`).

- **Screen tree.** The screen is an immutable tree of `Node`s, each with a class name,
  text, description, clickability and children. A node is named by its *path*: the child
  indices from the root. The parent of a node is its path without the last index
  (module `ScreenTree`).
- **Searches.** Each search is proved against an independent reference:
  - the searches by class name and by description (exact, contains and ends-with tests)
    are proved equal to the first element of the preorder listing of matching nodes
    (`Select`), hence the first match in preorder (`IsFirstMatch`);
  - the search by exact text filters the platform's candidate list, modelled as the
    preorder listing of nodes whose text contains the query, and is proved to return the
    first node in preorder whose text is exactly the query (`IsFirstMatch`);
  - the walk up the parent links is proved to return the deepest clickable node on the
    chain from the found node to the root (`IsNearestClickable`).

  The collector of lock and unlock buttons is a class with a growing `buttons` list.
- **Classifier.** It gives the four door states in their fixed priority, and the status
  string that `updateStatusFromNode` publishes (module `DoorClassifier`).
- **Action driver.** `performActionInternal` and `waitForStateChange` are methods of the
  class `AccessibilityService` (module `ActionDriver`).
  - Each read of the active window takes the next element of a sequence of screens. Each
    screen carries a root, a package name and a clock reading.
  - Waiting is counted in reads:
    - the overall timeout is 20000 / 500 = 40 reads;
    - the post-click confirmation wait is 8000 / 500 = 16 reads;
    - launchApp's foreground wait is 5000 / 200 = 25 reads.
  - Clicks are recorded on the service as `Tap`s. Status updates go to the status bus.
    The wake lock is a held or released flag.
  - Only the classifier's answers about a screen (a `Reading`) affect the driver. So one
    invocation is first defined step by step as a function of the readings
    (`ActionRun`). The methods query the screens themselves and are proved to follow
    that function.
  - The lemmas of `DriverProperties` then say what an invocation does:
    - how many screens it reads;
    - which nodes it taps;
    - what a `true` result means;
    - what it publishes;
    - how each reading relates to what its screen shows.

**The bridge service** (`LockBridgeService.kt`).

- **Status bus.** `StatusBus` models the replayed status stream as two fields: the
  append-only history of emissions and the latest value. It also holds the
  last-confirmed timestamp. The clock reading is a parameter (module `LockStatus`).
- **Routing** of MQTT messages and commands into the desired-state cell.
- **MQTT mapping** from each status emission to the messages published.
- **Operation supervisor.** It is a bounded retry loop over the desired state (module
  `Supervisor`). Everything that happens while it waits is an input, one `AttemptEnv`
  per attempt:
  - the statuses published before the attempt looks at the lock;
  - executeAction's result and the statuses published during the click;
  - the statuses published within the confirmation timeout.

  The loop is proved against `SupervisorRun`, and `SupervisorProperties` states the
  loop's guarantees about that function.

Files:
- `wrappers.dfy`: `Option`.
- `screen_tree.dfy`: the tree, the searches and the button collector.
- `classifier.dfy`: the door state and the published status.
- `status_bus.dfy`: the status bus.
- `action_driver.dfy`: the readings, `ActionRun` and the accessibility service class.
- `driver_properties.dfy`: the properties of one invocation.
- `supervisor.dfy`: routing, the MQTT mapping, `SupervisorRun` and the bridge class.
- `supervisor_properties.dfy`: their properties.

## Model

| member | source | states |
|---|---|---|
| ScreenTree.SelectSpec | app/src/main/java/com/ykkap/lockbridge/service/YkkAccessibilityService.kt:291-298 | a position is in the reference listing exactly when it is a node of the tree that matches the query |
| ScreenTree.SelectSorted | app/src/main/java/com/ykkap/lockbridge/service/YkkAccessibilityService.kt:295-297 | the reference listing is in preorder: a node before its subtree, earlier children before later ones |
| ScreenTree.FindFirstSpec | app/src/main/java/com/ykkap/lockbridge/service/YkkAccessibilityService.kt:304-312 | the test-the-node-then-children-in-order search returns the first element of the preorder listing |
| ScreenTree.FindFirstIsFirstMatch | app/src/main/java/com/ykkap/lockbridge/service/YkkAccessibilityService.kt:320-341 | the search result matches the query and comes before every other matching node in preorder; None means no node matches |
| ScreenTree.FindNodeByClassNameSpec | app/src/main/java/com/ykkap/lockbridge/service/YkkAccessibilityService.kt:304-312 | findNodeByClassName returns the first node in preorder with that class name, or None when there is none |
| ScreenTree.FindNodeByDescriptionSpec | app/src/main/java/com/ykkap/lockbridge/service/YkkAccessibilityService.kt:320-341 | a null root gives None; otherwise the first node in preorder whose (non-null) description equals, contains or ends with the text, per the match type |
| ScreenTree.NearestClickableSpec | app/src/main/java/com/ykkap/lockbridge/service/YkkAccessibilityService.kt:345 | walking parent links from a node returns its deepest clickable ancestor-or-self, and None exactly when no node on the chain to the root is clickable |
| ScreenTree.FindClickableNodeByDescriptionSpec | app/src/main/java/com/ykkap/lockbridge/service/YkkAccessibilityService.kt:343-346 | None when no node has exactly the description; otherwise the nearest clickable ancestor-or-self of the first such node |
| ScreenTree.ActionableButtonsSpec | app/src/main/java/com/ykkap/lockbridge/service/YkkAccessibilityService.kt:287-302 | empty for a null root or a tree without a ScrollView; otherwise exactly the clickable, unlabelled ViewGroups of the first ScrollView's subtree, in preorder |
| ScreenTree.ButtonCollector.FindNodes | app/src/main/java/com/ykkap/lockbridge/service/YkkAccessibilityService.kt:291-298 | the recursive helper appends exactly the actionable nodes of the visited subtree, in preorder, to the list |
| ScreenTree.FindActionableLockUnlockButtons | app/src/main/java/com/ykkap/lockbridge/service/YkkAccessibilityService.kt:287-302 | the collected list equals the reference list of actionable buttons (empty for a null root or without a ScrollView) |
| DoorClassifier.FirstExactTextSpec | app/src/main/java/com/ykkap/lockbridge/service/YkkAccessibilityService.kt:317 | the firstOrNull filter picks the first candidate whose text is exactly the query, skipping only candidates that are not |
| DoorClassifier.FindNodeByTextIsFirstMatch | app/src/main/java/com/ykkap/lockbridge/service/YkkAccessibilityService.kt:314-318 | filtering the platform's candidates for exact text finds the first node in preorder whose text is exactly the query |
| DoorClassifier.FindNodeByTextSpec | app/src/main/java/com/ykkap/lockbridge/service/YkkAccessibilityService.kt:314-318 | findNodeByText finds a node exactly when some node of the screen has exactly that text |
| DoorClassifier.FindNodeByDescriptionShows | app/src/main/java/com/ykkap/lockbridge/service/YkkAccessibilityService.kt:320-341 | the description search finds a node exactly when some node's description passes the match test |
| DoorClassifier.DetermineDoorStatePriority | app/src/main/java/com/ykkap/lockbridge/service/YkkAccessibilityService.kt:249-255 | null root is Unknown; the connection-error text gives Disconnected even beside a status text; else a description ending in the sleep suffix gives Sleep; else a locked or unlocked text gives Available; else Unknown (each an if-and-only-if) |
| DoorClassifier.StatusOfSpec | app/src/main/java/com/ykkap/lockbridge/service/YkkAccessibilityService.kt:264-274 | Available with the locked text present (even beside the unlocked text) publishes LOCKED, Available otherwise UNLOCKED, Disconnected UNAVAILABLE, Sleep and Unknown UNKNOWN |
| LockStatus.StatusBus.constructor | app/src/main/java/com/ykkap/lockbridge/service/LockBridgeService.kt:76-79 | the stream starts with the single emission "Unknown" and no timestamp |
| LockStatus.StatusBus.UpdateLockStatus | app/src/main/java/com/ykkap/lockbridge/service/LockBridgeService.kt:81-86 | every call emits, with no deduplication: the history grows by the status, the latest value becomes it, and the timestamp becomes now only for LOCKED or UNLOCKED |
| LockStatus.StatusBus.PublishAll | app/src/main/java/com/ykkap/lockbridge/service/LockBridgeService.kt:81-86 | publishing a sequence of statuses leaves the bus in the state of applying them one by one |
| LockStatus.ApplyAllConcat | app/src/main/java/com/ykkap/lockbridge/service/LockBridgeService.kt:81-86 | publishing two runs of statuses one after the other is publishing their concatenation |
| LockStatus.ApplyAllEmits | app/src/main/java/com/ykkap/lockbridge/service/LockBridgeService.kt:81-82 | after any run of publications the history is the old history followed by every status published, and the replayed value is the last one |
| LockStatus.StampUnchanged | app/src/main/java/com/ykkap/lockbridge/service/LockBridgeService.kt:83-85 | publishing only statuses other than LOCKED and UNLOCKED (UNKNOWN, UNAVAILABLE, ...) never changes the timestamp |
| LockStatus.StampIsLastConfirmed | app/src/main/java/com/ykkap/lockbridge/service/LockBridgeService.kt:83-85 | after a LOCKED or UNLOCKED publication the timestamp is the clock reading of the last such publication |
| ActionDriver.ReadingsReadAs | app/src/main/java/com/ykkap/lockbridge/service/YkkAccessibilityService.kt:152-153 | the readings of a sequence of screens are the classifier's answers about each of them, in order |
| ActionDriver.ReadingAtScreen | app/src/main/java/com/ykkap/lockbridge/service/YkkAccessibilityService.kt:152-153 | the reading of the i-th read is the classifier's answer about the i-th screen; a read past the last screen finds no window |
| ActionDriver.ReadStatus | app/src/main/java/com/ykkap/lockbridge/service/YkkAccessibilityService.kt:264-274 | the publication a reading stands for is the one updateStatusFromNode makes for its screen at its clock |
| ActionDriver.ReadConfirms | app/src/main/java/com/ykkap/lockbridge/service/YkkAccessibilityService.kt:222-223 | a reading confirms LOCK or UNLOCK exactly when its screen has a root and findNodeByText finds the expected status text on it |
| ActionDriver.AccessibilityService.UpdateStatusFromNode | app/src/main/java/com/ykkap/lockbridge/service/YkkAccessibilityService.kt:264-279 | exactly one publication per call: the status of the screen's door state at the given clock |
| ActionDriver.AccessibilityService.OnAccessibilityEvent | app/src/main/java/com/ykkap/lockbridge/service/YkkAccessibilityService.kt:257-262 | an event from the lock application with a window republishes that window's status; any other event, or no window, publishes nothing |
| ActionDriver.AccessibilityService.WaitForStateChange | app/src/main/java/com/ykkap/lockbridge/service/YkkAccessibilityService.kt:213-233 | follows the confirmation wait step by step: result, reads used and publications are those of StateChangeRun, and it never taps |
| ActionDriver.AccessibilityService.LaunchApp | app/src/main/java/com/ykkap/lockbridge/service/YkkAccessibilityService.kt:242-246 | the foreground wait ends after the first read showing the lock application, or silently after 25 reads |
| ActionDriver.AccessibilityService.StateAt | app/src/main/java/com/ykkap/lockbridge/service/YkkAccessibilityService.kt:153 | determineDoorState on a read's screen is the reading's state, and any state but Unknown implies a window |
| ActionDriver.AccessibilityService.ButtonsAt | app/src/main/java/com/ykkap/lockbridge/service/YkkAccessibilityService.kt:175 | findActionableLockUnlockButtons on a read's screen is the reading's buttons |
| ActionDriver.AccessibilityService.KeepsPollingAt | app/src/main/java/com/ykkap/lockbridge/service/YkkAccessibilityService.kt:153-168 | the loop goes on exactly on an unrecognised screen or a sleeping one with a wake-up button |
| ActionDriver.AccessibilityService.PublishStatusAt | app/src/main/java/com/ykkap/lockbridge/service/YkkAccessibilityService.kt:171 | updateStatusFromNode on an available read publishes exactly the reading's status |
| ActionDriver.AccessibilityService.PollStep | app/src/main/java/com/ykkap/lockbridge/service/YkkAccessibilityService.kt:159-168 | a read that keeps the loop going taps the wake-up button on a sleeping screen and nothing otherwise |
| ActionDriver.AccessibilityService.ActOnAvailableScreen | app/src/main/java/com/ykkap/lockbridge/service/YkkAccessibilityService.kt:169-185 | the available branch publishes the screen's status, stops for a status check, returns false without the action's button, and otherwise taps it and waits, with the overall timeout publishing UNAVAILABLE, as AvailableRun says |
| ActionDriver.AccessibilityService.FinishPoll | app/src/main/java/com/ykkap/lockbridge/service/YkkAccessibilityService.kt:150-199 | the read that ends the loop: Disconnected publishes UNAVAILABLE and fails, Sleep without a wake-up button fails, Available acts, and an exhausted budget publishes UNAVAILABLE and fails |
| ActionDriver.AccessibilityService.AwaitReadyState | app/src/main/java/com/ykkap/lockbridge/service/YkkAccessibilityService.kt:150-199 | the polling loop's result, taps and publications are those of AwaitReadyRun; the wake lock stays held |
| ActionDriver.AccessibilityService.PerformActionInternal | app/src/main/java/com/ykkap/lockbridge/service/YkkAccessibilityService.kt:106-211 | result, taps and publications of one invocation are those of ActionRun, and the wake lock is released on every exit |
| DriverProperties.ConfirmationSpec | app/src/main/java/com/ykkap/lockbridge/service/YkkAccessibilityService.kt:220-232 | the confirmation wait succeeds exactly when one of its screens shows the text, stops at the first one and publishes that screen's status; otherwise it reads all its screens and publishes nothing |
| DriverProperties.StateChangeSpec | app/src/main/java/com/ykkap/lockbridge/service/YkkAccessibilityService.kt:213-233 | LOCK and UNLOCK wait for their own text (success if and only if some screen within the budget shows it); any other action returns true at once, reading and publishing nothing; a false result publishes nothing |
| DriverProperties.LaunchWaitSpec | app/src/main/java/com/ykkap/lockbridge/service/YkkAccessibilityService.kt:242-246 | the launch wait stops right after the first foreground screen, or after the whole budget when there is none, and carries on either way |
| DriverProperties.AvailableStep | app/src/main/java/com/ykkap/lockbridge/service/YkkAccessibilityService.kt:169-185 | an available screen in the loop taps at most once, only the action's own button on that screen; a status check publishes the status and returns true; too few buttons publishes the status, taps nothing and returns false; reads stay within budget and true means Succeeded |
| DriverProperties.AwaitReadySpec | app/src/main/java/com/ykkap/lockbridge/service/YkkAccessibilityService.kt:150-199 | from any read of the polling loop: bounded reads, every tap a wake-up tap except possibly a last button tap, a status check only wakes, and true means Succeeded |
| DriverProperties.AllUnknownTimesOut | app/src/main/java/com/ykkap/lockbridge/service/YkkAccessibilityService.kt:186-199 | screens that stay unrecognised exhaust the 40-read budget: no tap, UNAVAILABLE published, false |
| DriverProperties.PollingExhausts | app/src/main/java/com/ykkap/lockbridge/service/YkkAccessibilityService.kt:150-199 | whenever all 40 reads show unrecognised screens or sleeping ones with a wake-up control, the loop reads them all, taps only wake-up controls, publishes UNAVAILABLE once and returns false |
| DriverProperties.EarlyExits | app/src/main/java/com/ykkap/lockbridge/service/YkkAccessibilityService.kt:154-167 | a connection error publishes UNAVAILABLE and fails without tapping; a sleeping screen without a wake-up control fails without tapping or publishing |
| DriverProperties.ConfirmationTimesOut | app/src/main/java/com/ykkap/lockbridge/service/YkkAccessibilityService.kt:178-198 | a confirmation that does not come within the reads left of the overall budget ends with the button's status and then UNAVAILABLE, and false |
| DriverProperties.FullPathSpec | app/src/main/java/com/ykkap/lockbridge/service/YkkAccessibilityService.kt:132-200 | the full path reads a bounded number of screens; a dump returns true without tapping or publishing; otherwise the polling loop's guarantees hold |
| DriverProperties.FastPathOutcome | app/src/main/java/com/ykkap/lockbridge/service/YkkAccessibilityService.kt:108-127 | when the fast path finishes, a status check publishes the first screen's status and returns true; LOCK or UNLOCK taps button 0 or 1 of the first screen and returns the confirmation's result |
| DriverProperties.ButtonRunSpec | app/src/main/java/com/ykkap/lockbridge/service/YkkAccessibilityService.kt:116-121 | tapping the action's button and waiting: one tap on that button, bounded reads, and true means confirmed success |
| DriverProperties.FastPathSpec | app/src/main/java/com/ykkap/lockbridge/service/YkkAccessibilityService.kt:108-127 | a finished fast path reads at most 17 screens, taps only its button (a status check taps nothing), and true means Succeeded |
| DriverProperties.FullPathChoice | app/src/main/java/com/ykkap/lockbridge/service/YkkAccessibilityService.kt:108-131 | the full path runs exactly when the device is not interactive, the first screen is not available in the foreground, or no button finishes the fast path (a dump always falls through), after the fast path's publication |
| DriverProperties.ActionRunReads | app/src/main/java/com/ykkap/lockbridge/service/YkkAccessibilityService.kt:106-211 | an invocation reads at most 2 + 25 + 40 screens |
| DriverProperties.ActionRunTaps | app/src/main/java/com/ykkap/lockbridge/service/YkkAccessibilityService.kt:116-184 | taps come one per screen in reading order, all wake-up taps but possibly the last, which is the action's button; a status check only wakes and a dump never taps |
| DriverProperties.ActionRunSuccess | app/src/main/java/com/ykkap/lockbridge/service/YkkAccessibilityService.kt:106-211 | true from a status check, LOCK or UNLOCK means Succeeded; a dump always returns true, taps nothing and publishes only the fast path's status |
| DriverProperties.ReadStateSpec | app/src/main/java/com/ykkap/lockbridge/service/YkkAccessibilityService.kt:249-255 | a reading's door state follows the classifier's priority on what its screen shows; no window reads as Unknown and not in the foreground |
| DriverProperties.ReadStatusSpec | app/src/main/java/com/ykkap/lockbridge/service/YkkAccessibilityService.kt:264-274 | a reading confirms LOCK (UNLOCK) exactly when its screen shows the locked (unlocked) text, and its status is LOCKED, UNLOCKED, UNAVAILABLE or UNKNOWN by the classifier |
| DriverProperties.ReadControlsSpec | app/src/main/java/com/ykkap/lockbridge/service/YkkAccessibilityService.kt:287-346 | every button of a reading is a clickable unlabelled ViewGroup of its screen, and the wake-up control is a clickable node of it |
| DriverProperties.ButtonTapOnScreen | app/src/main/java/com/ykkap/lockbridge/service/YkkAccessibilityService.kt:175-179 | a button tap pressed a clickable, unlabelled ViewGroup of the screen it was made on |
| DriverProperties.ConfirmedOnScreen | app/src/main/java/com/ykkap/lockbridge/service/YkkAccessibilityService.kt:222-226 | a confirming reading comes from a screen showing the action's text, and its publication is that screen's updateStatusFromNode |
| DriverProperties.SucceededOnScreens | app/src/main/java/com/ykkap/lockbridge/service/YkkAccessibilityService.kt:175-180 | a LOCK or UNLOCK that returns true last pressed a real button, and its last screen shows the action's text and had its status published last |
| Supervisor.LockBridge.constructor | app/src/main/java/com/ykkap/lockbridge/service/LockBridgeService.kt:70 | the desired-state cell starts null and no action has been requested |
| Supervisor.LockBridge.TriggerLockOperation | app/src/main/java/com/ykkap/lockbridge/service/LockBridgeService.kt:317-322 | LOCK sets the desired state to LOCKED, UNLOCK to UNLOCKED, anything else leaves it as it was |
| Supervisor.LockBridge.HandleMqttMessage | app/src/main/java/com/ykkap/lockbridge/service/LockBridgeService.kt:302-315 | the request made is the routing of the topic and payload; only a LOCK or UNLOCK on the set topic changes the desired state |
| Supervisor.LockBridge.AwaitConfirmation | app/src/main/java/com/ykkap/lockbridge/service/LockBridgeService.kt:232-235 | the wait checks the replayed latest status first, then publishes arrivals until the first match, succeeding exactly as AwaitMatch says |
| Supervisor.LockBridge.RunAttempt | app/src/main/java/com/ykkap/lockbridge/service/LockBridgeService.kt:212-249 | one attempt: publishes what happens before it, stops on a match, otherwise records one executeAction and waits only after a successful click, as SupervisorRun says; when it does not finish, the bus holds the publications before and during the action followed by the confirmation arrivals the wait saw |
| Supervisor.LockBridge.HandleDesiredState | app/src/main/java/com/ykkap/lockbridge/service/LockBridgeService.kt:208-256 | a null desired state does nothing; otherwise calls and the bus end as SupervisorRun says and the desired state is cleared on every exit |
| SupervisorProperties.IgnoresCase | app/src/main/java/com/ykkap/lockbridge/service/LockBridgeService.kt:213 | for all strings, the ignore-case comparison is equality after folding ASCII letters to lower case; it is reflexive and symmetric |
| SupervisorProperties.PublishedStatusesMatchExactly | app/src/main/java/com/ykkap/lockbridge/service/LockBridgeService.kt:213 | among the statuses the service publishes, only the desired state itself matches it |
| SupervisorProperties.RouteMessageSpec | app/src/main/java/com/ykkap/lockbridge/service/LockBridgeService.kt:302-315 | only LOCK or UNLOCK on the set topic becomes a command, check_status requests a status check, debug a dump, anything else is ignored (each an if-and-only-if) |
| SupervisorProperties.CommandRoundTrip | app/src/main/java/com/ykkap/lockbridge/service/LockBridgeService.kt:317-322 | only LOCK and UNLOCK set a desired state, and the supervisor then clicks LOCK for LOCK and UNLOCK for UNLOCK |
| SupervisorProperties.StatusMessagesSpec | app/src/main/java/com/ykkap/lockbridge/service/LockBridgeService.kt:121-143 | while connected, LOCKED and UNLOCKED publish exactly online, then the state, then the timestamp; UNAVAILABLE exactly the offline message alone; anything else, or a disconnected client, nothing |
| SupervisorProperties.MqttTrafficSpec | app/src/main/java/com/ykkap/lockbridge/service/LockBridgeService.kt:120-144 | the state topic receives every LOCKED and UNLOCKED emission, repeats included, in order, while connected; a disconnected client publishes nothing |
| SupervisorProperties.FirstMatchSpec | app/src/main/java/com/ykkap/lockbridge/service/LockBridgeService.kt:233 | the index found is that of the first arrival matching the desired state, ignoring case |
| SupervisorProperties.AwaitMatchSpec | app/src/main/java/com/ykkap/lockbridge/service/LockBridgeService.kt:232-235 | the wait succeeds exactly when the replayed status or some arrival matches, stops at the first match so the latest status then matches, and otherwise sees every arrival |
| SupervisorProperties.SupervisorRunSpec | app/src/main/java/com/ykkap/lockbridge/service/LockBridgeService.kt:208-256 | at most 3 executeAction calls, all with the desired state's action; ending on attempt k means k - 1 calls when the state already matched and k calls after a successful click on attempt k; otherwise all remaining calls and UNAVAILABLE |
| SupervisorProperties.StopsOnMatch | app/src/main/java/com/ykkap/lockbridge/service/LockBridgeService.kt:212-240 | every early stop, at the opening check or after a confirmation, leaves the latest status equal to the desired state, ignoring case |
| SupervisorProperties.NoMatchExhausts | app/src/main/java/com/ykkap/lockbridge/service/LockBridgeService.kt:212-254 | when no status before, during or after any remaining attempt matches the desired state, the supervisor makes every remaining executeAction call, gives up and ends on UNAVAILABLE |
| SupervisorProperties.ExhaustionKeepsStamp | app/src/main/java/com/ykkap/lockbridge/service/LockBridgeService.kt:250-254 | giving up publishes UNAVAILABLE last, which leaves the last-update timestamp unchanged |
| SupervisorProperties.ConfirmedClickEnds | app/src/main/java/com/ykkap/lockbridge/service/LockBridgeService.kt:229-240 | an attempt whose click succeeds and whose window brings a matching status ends the operation on that attempt |
| SupervisorProperties.SatisfiedAtStart | app/src/main/java/com/ykkap/lockbridge/service/LockBridgeService.kt:212-217 | if the lock shows the desired state at the start of an attempt, nothing more is clicked and the operation ends there |
| SupervisorProperties.NoClickNoConfirmation | app/src/main/java/com/ykkap/lockbridge/service/LockBridgeService.kt:229-246 | without a successful click the supervisor never ends by confirmation |

## Left out

- Exceptions: updateStatusFromNode's catch, which publishes UNKNOWN, and performActionInternal's catch, which returns false, are not modelled. The modelled operations are total, so nothing can throw.
- launchApp's startActivity and the intent that unlocks the keyguard are platform I/O. Only the wait for the application's window is modelled.
- The wake lock is a held/released flag. Its 30-second hardware timeout and the wake flags are platform internals.
- Time is counted in reads of the active window, so delay, the wall clock and withTimeoutOrNull become read budgets. The full path's confirmation wait polls min(16, reads left); the fast path's polls 16. The read budget stands in for the 20-second timeout. The 1-second pause before a dump and the 2-second pause between supervisor attempts are not modelled.
- Supervisor.SupervisorRun (and so Supervisor.LockBridge.HandleDesiredState): the 2-second pause after the last failed attempt, before UNAVAILABLE is published, is not modelled; a status published during it is missing from the modelled history and, if LOCKED or UNLOCKED, from lastUpdate.
- The mutex, the coroutines and the SharedFlow buffering (DROP_OLDEST, subscribers) are concurrency. Invocations run one after another, and every emission reaches the collector.
- onAccessibilityEvent launches its update on a coroutine. The model performs it synchronously.
- executeAction's null-instance check and requestStatusCheck are left out. The supervisor sees executeAction only through each attempt's clicked result: it is not linked to PerformActionInternal, because the accessibility service runs in another component.
- handleMqttMessage's StatusCheck and Dump requests are returned as a Route. Starting those invocations is not modelled.
- dumpNodeHierarchy only writes log output.
- The periodic status checker is left out: it is pure timing around requestStatusCheck.
- The statuses published while the supervisor waits are inputs, and the supervisor handles one desired value to the end. A new command that arrives meanwhile, and the state cell's conflation of values, are not modelled.
- DoorClassifier.TextCandidates: findAccessibilityNodeInfosByText is a platform search. It is modelled as every node whose text contains the query, in preorder. Only its exact-equality filter belongs to the service itself.
- Supervisor.EqualsIgnoreCase folds ASCII letters only. Kotlin's ignoreCase comparison also folds other alphabets. The statuses compared are ASCII, and PublishedStatusesMatchExactly shows this makes no difference for them.
- Supervisor.StatusMessages publishes the status itself as the state payload. The service upper-cases it, which changes nothing for LOCKED and UNLOCKED.
- The ISO 8601 last_updated timestamp and System.currentTimeMillis are parameters. Their formatting and monotonicity are not modelled.
- The MQTT connection, its online message on connect and the web server are not part of this model. The collector's connected test is a parameter.
- Node children that the platform returns as null are not modelled: every child is present.
- The power manager's isInteractive answer is an input. The UNAVAILABLE of a timeout carries the clock of the read where it stopped; no property depends on it.
- A confirmed UNLOCK on a screen showing both status texts publishes LOCKED, because LOCKED wins in updateStatusFromNode. ReadStatusSpec states this, and Succeeded asks only that the confirming screen's own status was published.
