/** The door-state classifier: what the lock application's current screen shows, and the
    status string the service publishes for it. */
module DoorClassifier {
  import opened Wrappers
  import opened ScreenTree

  // The lock application's own (Japanese) screen texts.
  const LockedStatusText: string := "施錠されています"
  const UnlockedStatusText: string := "解錠されています"
  const ConnectionErrorText: string := "ドアと接続できません"
  const SleepModeHeaderSuffix: string := "スリープモード"
  const WakeUpButtonDesc: string := "スリープモード解除"

  /** The screen as the classifier sees it. */
  datatype DoorState = Available | Sleep | Disconnected | Unknown

  /** The node list findAccessibilityNodeInfosByText returns: modelled as every node whose
      text contains the query, in preorder. */
  function TextCandidates(root: Node, text: string): seq<Path> {
    Select(root, TextContains(text))
  }

  /** The node at `p` has exactly the text `text`. */
  predicate HasExactText(root: Node, p: Path, text: string) {
    ValidPath(root, p) && At(root, p).text == Some(text)
  }

  /** The index of the first candidate whose text is exactly `text`, at or after `from`
      (|candidates| when there is none): the firstOrNull filter. The platform's candidates
      are always positions in the tree (CandidatesValid), so the position test inside
      HasExactText only makes the node lookup well defined. */
  function FirstExactText(root: Node, candidates: seq<Path>, text: string, from: nat): (k: nat)
    requires from <= |candidates|
    ensures from <= k <= |candidates|
    decreases |candidates| - from
  {
    if from == |candidates| then |candidates|
    else if HasExactText(root, candidates[from], text) then from
    else FirstExactText(root, candidates, text, from + 1)
  }

  function FindNodeByText(root: Option<Node>, text: string): (r: Option<Path>) {
    if root.None? then None
    else
      var candidates := TextCandidates(root.value, text);
      var k := FirstExactText(root.value, candidates, text, 0);
      if k < |candidates| then Some(candidates[k]) else None
  }

  function DetermineDoorState(root: Option<Node>): DoorState {
    if root.None? then Unknown
    else if FindNodeByText(root, ConnectionErrorText).Some? then Disconnected
    else if FindNodeByDescription(root, SleepModeHeaderSuffix, EndsWith).Some? then Sleep
    else if FindNodeByText(root, LockedStatusText).Some? || FindNodeByText(root, UnlockedStatusText).Some?
    then Available
    else Unknown
  }

  /** The status string updateStatusFromNode publishes for a screen. */
  function StatusOf(root: Node): string {
    match DetermineDoorState(Some(root))
    case Available => if FindNodeByText(Some(root), LockedStatusText).Some? then "LOCKED" else "UNLOCKED"
    case Disconnected => "UNAVAILABLE"
    case Sleep => "UNKNOWN"
    case Unknown => "UNKNOWN"
  }

  // ---- what the screen shows, stated without the searches ----

  ghost predicate ShowsText(root: Node, text: string) {
    exists p :: ValidPath(root, p) && At(root, p).text == Some(text)
  }

  ghost predicate ShowsDescription(root: Node, text: string, mode: MatchType) {
    exists p :: ValidPath(root, p) && DescMatches(At(root, p).desc, text, mode)
  }

  // ---- lemmas ----

  lemma CandidatesValid(root: Node, text: string)
    ensures forall i :: 0 <= i < |TextCandidates(root, text)| ==>
              ValidPath(root, TextCandidates(root, text)[i])
  {
    forall i | 0 <= i < |TextCandidates(root, text)|
      ensures ValidPath(root, TextCandidates(root, text)[i])
    {
      SelectSpec(root, TextContains(text), TextCandidates(root, text)[i]);
    }
  }

  /** The filter stops at the first candidate whose text is exactly `text`. */
  lemma {:induction false} FirstExactTextSpec(root: Node, candidates: seq<Path>, text: string, from: nat)
    requires from <= |candidates|
    ensures var k := FirstExactText(root, candidates, text, from);
            && (k < |candidates| ==> HasExactText(root, candidates[k], text))
            && (forall j :: from <= j < k ==> !HasExactText(root, candidates[j], text))
    decreases |candidates| - from
  {
    if from < |candidates| && !HasExactText(root, candidates[from], text) {
      FirstExactTextSpec(root, candidates, text, from + 1);
    }
  }

  /** Every node whose text is exactly `text` comes at or after the filter's pick. */
  lemma ExactTextNotBeforePick(root: Node, text: string, p: Path)
    requires ValidPath(root, p) && At(root, p).text == Some(text)
    ensures var r := FindNodeByText(Some(root), text);
            r.Some? && (p == r.value || Before(r.value, p))
  {
    var c := TextCandidates(root, text);
    CandidatesValid(root, text);
    SelectSorted(root, TextContains(text));
    var k := FirstExactText(root, c, text, 0);
    FirstExactTextSpec(root, c, text, 0);
    assert text <= At(root, p).text.value;
    assert Matches(At(root, p), TextContains(text));
    SelectSpec(root, TextContains(text), p);
    var j :| 0 <= j < |c| && c[j] == p;
    assert k <= j;
    if k < j {
      assert Before(c[k], c[j]);
    }
    assert FindNodeByText(Some(root), text) == Some(c[k]);
  }

  /** Filtering the platform's candidates for exact equality finds the first node in
      preorder whose text is exactly `text`. */
  lemma FindNodeByTextIsFirstMatch(root: Node, text: string)
    ensures IsFirstMatch(root, TextIs(text), FindNodeByText(Some(root), text))
  {
    var c := TextCandidates(root, text);
    CandidatesValid(root, text);
    var k := FirstExactText(root, c, text, 0);
    FirstExactTextSpec(root, c, text, 0);
    var r := FindNodeByText(Some(root), text);
    assert r == if k < |c| then Some(c[k]) else None;
    forall p | ValidPath(root, p) && Matches(At(root, p), TextIs(text))
      ensures r.Some? && (p == r.value || Before(r.value, p))
    {
      ExactTextNotBeforePick(root, text, p);
    }
    if k < |c| {
      SelectSpec(root, TextContains(text), c[k]);
    }
  }

  lemma FindNodeByTextSpec(root: Node, text: string)
    ensures FindNodeByText(Some(root), text).Some? <==> ShowsText(root, text)
  {
    FindNodeByTextIsFirstMatch(root, text);
    if ShowsText(root, text) {
      var p :| ValidPath(root, p) && At(root, p).text == Some(text);
      assert Matches(At(root, p), TextIs(text));
    }
  }

  lemma FindNodeByDescriptionShows(root: Node, text: string, mode: MatchType)
    ensures FindNodeByDescription(Some(root), text, mode).Some? <==> ShowsDescription(root, text, mode)
  {
    FindNodeByDescriptionSpec(Some(root), text, mode);
    if ShowsDescription(root, text, mode) {
      var p :| ValidPath(root, p) && DescMatches(At(root, p).desc, text, mode);
      assert Matches(At(root, p), DescriptionMatches(text, mode));
    }
  }

  /** The classifier's fixed priority: a connection error wins over everything, then the
      sleep header, then either status text. */
  lemma DetermineDoorStatePriority(root: Option<Node>)
    ensures root.None? ==> DetermineDoorState(root) == Unknown
    ensures root.Some? ==>
      var r := root.value;
      var error := ShowsText(r, ConnectionErrorText);
      var sleep := ShowsDescription(r, SleepModeHeaderSuffix, EndsWith);
      var status := ShowsText(r, LockedStatusText) || ShowsText(r, UnlockedStatusText);
      && (DetermineDoorState(root) == Disconnected <==> error)
      && (DetermineDoorState(root) == Sleep <==> !error && sleep)
      && (DetermineDoorState(root) == Available <==> !error && !sleep && status)
      && (DetermineDoorState(root) == Unknown <==> !error && !sleep && !status)
  {
    if root.Some? {
      FindNodeByTextSpec(root.value, ConnectionErrorText);
      FindNodeByTextSpec(root.value, LockedStatusText);
      FindNodeByTextSpec(root.value, UnlockedStatusText);
      FindNodeByDescriptionShows(root.value, SleepModeHeaderSuffix, EndsWith);
    }
  }

  /** The published status: LOCKED whenever the locked text is on an available screen
      (even next to the unlocked text), UNAVAILABLE exactly on a connection error, and
      UNKNOWN on a sleeping or unrecognised screen. */
  lemma StatusOfSpec(root: Node)
    ensures StatusOf(root) in {"LOCKED", "UNLOCKED", "UNAVAILABLE", "UNKNOWN"}
    ensures StatusOf(root) == "LOCKED" <==>
              DetermineDoorState(Some(root)) == Available && ShowsText(root, LockedStatusText)
    ensures StatusOf(root) == "UNLOCKED" <==>
              DetermineDoorState(Some(root)) == Available && !ShowsText(root, LockedStatusText)
    ensures StatusOf(root) == "UNLOCKED" ==> ShowsText(root, UnlockedStatusText)
    ensures StatusOf(root) == "UNAVAILABLE" <==> DetermineDoorState(Some(root)) == Disconnected
    ensures StatusOf(root) == "UNKNOWN" <==>
              DetermineDoorState(Some(root)) == Sleep || DetermineDoorState(Some(root)) == Unknown
  {
    DetermineDoorStatePriority(Some(root));
    FindNodeByTextSpec(root, LockedStatusText);
  }
}
