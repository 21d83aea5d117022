/** The read-only view of the lock application's on-screen element tree that the
    accessibility service queries, and the node search helpers built on it.

    The platform hands the service a tree of nodes with parent back-links. Here the tree
    is an immutable value and a node is identified by its position: the list of child
    indices that leads to it from the root. The parent of the node at `p` is the node at
    `p` without its last index. */
module ScreenTree {
  import opened Wrappers

  /** A position in the tree: the child indices from the root ([] is the root). */
  type Path = seq<nat>

  datatype Node = Node(
    className: string,
    text: Option<string>,
    desc: Option<string>,
    clickable: bool,
    children: seq<Node>)

  const ViewGroupClass: string := "android.view.ViewGroup"
  const ScrollViewClass: string := "android.widget.ScrollView"

  predicate ValidPath(n: Node, p: Path)
    decreases |p|
  {
    p == [] || (p[0] < |n.children| && ValidPath(n.children[p[0]], p[1..]))
  }

  function At(n: Node, p: Path): Node
    requires ValidPath(n, p)
    decreases |p|
  {
    if p == [] then n else At(n.children[p[0]], p[1..])
  }

  /** Preorder on positions: a node comes before everything in its subtree, and the
      subtree of an earlier child before the subtree of a later one. */
  predicate Before(p: Path, q: Path)
    decreases |p|
  {
    |q| > 0 && (|p| == 0 || p[0] < q[0] || (p[0] == q[0] && Before(p[1..], q[1..])))
  }

  ghost predicate Sorted(ps: seq<Path>) {
    forall a, b :: 0 <= a < b < |ps| ==> Before(ps[a], ps[b])
  }

  // ---- text matching (Kotlin's ==, contains and endsWith on character sequences) ----

  predicate IsSuffix(t: string, s: string) {
    |t| <= |s| && s[|s| - |t|..] == t
  }

  predicate IsSubstring(t: string, s: string)
    decreases |s|
  {
    t <= s || (|s| > 0 && IsSubstring(t, s[1..]))
  }

  datatype MatchType = Exact | Contains | EndsWith

  /** The description test of findNodeByDescription: a null description never matches. */
  predicate DescMatches(desc: Option<string>, text: string, mode: MatchType) {
    desc.Some? &&
    match mode
    case Exact => desc.value == text
    case Contains => IsSubstring(text, desc.value)
    case EndsWith => IsSuffix(text, desc.value)
  }

  /** What a search looks for in a single node. */
  datatype Query =
    | ClassNameIs(className: string)
    | DescriptionMatches(text: string, mode: MatchType)
    | TextIs(text: string)
    | TextContains(text: string)
    | ActionableButton

  predicate Matches(n: Node, q: Query) {
    match q
    case ClassNameIs(c) => n.className == c
    case DescriptionMatches(t, m) => DescMatches(n.desc, t, m)
    case TextIs(t) => n.text == Some(t)
    case TextContains(t) => n.text.Some? && IsSubstring(t, n.text.value)
    // an unlabelled clickable ViewGroup: the lock and unlock buttons carry no description
    case ActionableButton =>
      n.className == ViewGroupClass && n.clickable && (n.desc.None? || n.desc.value == "")
  }

  // ---- the preorder listing: the reference every search is stated against ----

  /** The positions `base + p` for each `p` of `ps`. */
  function Under(base: Path, ps: seq<Path>): seq<Path> {
    seq(|ps|, k requires 0 <= k < |ps| => base + ps[k])
  }

  /** The positions of all nodes of the tree rooted at `n` that match `q`, in preorder. */
  function Select(n: Node, q: Query): seq<Path>
    decreases n, |n.children| + 1
  {
    (if Matches(n, q) then [[]] else []) + SelectFrom(n, 0, q)
  }

  /** The matches in the subtrees of the children `i`, `i + 1`, ... of `n`. */
  function SelectFrom(n: Node, i: nat, q: Query): seq<Path>
    requires i <= |n.children|
    decreases n, |n.children| - i
  {
    if i == |n.children| then []
    else Under([i], Select(n.children[i], q)) + SelectFrom(n, i + 1, q)
  }

  function First(ps: seq<Path>): Option<Path> {
    if ps == [] then None else Some(ps[0])
  }

  /** `r` is the first node in preorder that matches `q`, or None when none does. */
  ghost predicate IsFirstMatch(root: Node, q: Query, r: Option<Path>) {
    && (r.Some? ==> ValidPath(root, r.value) && Matches(At(root, r.value), q))
    && (forall p :: ValidPath(root, p) && Matches(At(root, p), q) ==>
          r.Some? && (p == r.value || Before(r.value, p)))
  }

  // ---- the first-match searches ----

  /** The shape shared by findNodeByClassName and findNodeByDescription: test the node,
      then search the children in order and return the first result found. */
  function FindFirst(n: Node, q: Query): (r: Option<Path>)
    ensures r.Some? ==> ValidPath(n, r.value)
    decreases n, |n.children| + 1
  {
    if Matches(n, q) then Some([]) else FindFrom(n, 0, q)
  }

  function FindFrom(n: Node, i: nat, q: Query): (r: Option<Path>)
    requires i <= |n.children|
    ensures r.Some? ==> ValidPath(n, r.value)
    decreases n, |n.children| - i
  {
    if i == |n.children| then None
    else match FindFirst(n.children[i], q)
      case Some(p) => Some([i] + p)
      case None => FindFrom(n, i + 1, q)
  }

  function FindNodeByClassName(root: Node, className: string): Option<Path> {
    FindFirst(root, ClassNameIs(className))
  }

  function FindNodeByDescription(root: Option<Node>, text: string, mode: MatchType): Option<Path> {
    if root.None? then None else FindFirst(root.value, DescriptionMatches(text, mode))
  }

  // ---- the nearest clickable ancestor ----

  /** `r` is the deepest clickable node on the chain from the node at `p` up to the root. */
  ghost predicate IsNearestClickable(root: Node, p: Path, r: Option<Path>)
    requires ValidPath(root, p)
  {
    PrefixesValid(root, p);
    (r.Some? ==> |r.value| <= |p| && r.value == p[..|r.value|] &&
                 At(root, p[..|r.value|]).clickable) &&
    (forall k :: (if r.Some? then |r.value| + 1 else 0) <= k <= |p| ==>
          !At(root, p[..k]).clickable)
  }

  /** Walks the parent links from the node at `p` until a clickable node is found. */
  function NearestClickable(root: Node, p: Path): Option<Path>
    requires ValidPath(root, p)
    decreases |p|
  {
    if At(root, p).clickable then Some(p)
    else if p == [] then None
    else
      ParentValid(root, p);
      NearestClickable(root, p[..|p| - 1])
  }

  function FindClickableNodeByDescription(root: Option<Node>, text: string): Option<Path> {
    match FindNodeByDescription(root, text, Exact)
    case None => None
    case Some(d) => NearestClickable(root.value, d)
  }

  // ---- the lock and unlock buttons ----

  /** The buttons findActionableLockUnlockButtons collects: the actionable nodes of the
      subtree of the first ScrollView, in preorder. */
  function ActionableButtons(root: Option<Node>): seq<Path> {
    if root.None? then []
    else match FindNodeByClassName(root.value, ScrollViewClass)
      case None => []
      case Some(sv) => Under(sv, Select(At(root.value, sv), ActionableButton))
  }

  /** The list that findActionableLockUnlockButtons' nested findNodes helper appends to. */
  class ButtonCollector {
    var buttons: seq<Path>

    constructor ()
      ensures buttons == []
    {
      buttons := [];
    }

    /** Appends the node at position `at` when it is actionable, then visits its
        children in order. */
    method FindNodes(node: Node, at: Path)
      modifies this
      ensures buttons == old(buttons) + Under(at, Select(node, ActionableButton))
      decreases node
    {
      var q := ActionableButton;
      UnderConcat(at, if Matches(node, q) then [[]] else [], SelectFrom(node, 0, q));
      if Matches(node, q) {
        assert Under(at, [[]])[0] == at + [] == at;
        buttons := buttons + [at];
      }
      for i := 0 to |node.children|
        invariant buttons + Under(at, SelectFrom(node, i, q)) ==
                  old(buttons) + Under(at, Select(node, q))
      {
        ghost var prior := buttons;
        FindNodes(node.children[i], at + [i]);
        UnderConcat(at, Under([i], Select(node.children[i], q)), SelectFrom(node, i + 1, q));
        UnderUnder(at, [i], Select(node.children[i], q));
        assert buttons == prior + Under(at, Under([i], Select(node.children[i], q)));
      }
    }
  }

  method FindActionableLockUnlockButtons(root: Option<Node>) returns (buttons: seq<Path>)
    ensures buttons == ActionableButtons(root)
  {
    buttons := [];
    if root.None? {
      return;
    }
    var scrollView := FindNodeByClassName(root.value, ScrollViewClass);
    FindNodeByClassNameSpec(root.value, ScrollViewClass);
    if scrollView.Some? {
      var collector := new ButtonCollector();
      collector.FindNodes(At(root.value, scrollView.value), scrollView.value);
      buttons := collector.buttons;
    }
  }

  // ---- lemmas ----

  lemma UnderConcat(base: Path, a: seq<Path>, b: seq<Path>)
    ensures Under(base, a + b) == Under(base, a) + Under(base, b)
  {
  }

  lemma UnderUnder(a: Path, b: Path, ps: seq<Path>)
    ensures Under(a, Under(b, ps)) == Under(a + b, ps)
  {
    forall k | 0 <= k < |ps| ensures a + (b + ps[k]) == (a + b) + ps[k] {
    }
  }

  lemma UnderMember(base: Path, ps: seq<Path>, p: Path)
    ensures p in Under(base, ps) <==> base <= p && p[|base|..] in ps
  {
    if p in Under(base, ps) {
      var k :| 0 <= k < |ps| && Under(base, ps)[k] == p;
      assert p[|base|..] == ps[k];
    }
    if base <= p && p[|base|..] in ps {
      var k :| 0 <= k < |ps| && ps[k] == p[|base|..];
      assert Under(base, ps)[k] == p;
    }
  }

  lemma {:induction false} PrefixesValid(root: Node, p: Path)
    requires ValidPath(root, p)
    ensures forall k :: 0 <= k <= |p| ==> ValidPath(root, p[..k])
    decreases |p|
  {
    if p != [] {
      PrefixesValid(root.children[p[0]], p[1..]);
      forall k | 1 <= k <= |p| ensures ValidPath(root, p[..k]) {
        assert p[..k][1..] == p[1..][..k - 1];
      }
    }
  }

  /** Positions below `base` are positions in the subtree at `base`. */
  lemma ParentValid(root: Node, p: Path)
    requires ValidPath(root, p) && p != []
    ensures ValidPath(root, p[..|p| - 1])
  {
    PrefixesValid(root, p);
  }

  lemma {:induction false} PathConcat(root: Node, base: Path, p: Path)
    requires ValidPath(root, base)
    ensures ValidPath(root, base + p) <==> ValidPath(At(root, base), p)
    ensures ValidPath(root, base + p) ==> At(root, base + p) == At(At(root, base), p)
    decreases |base|
  {
    if base == [] {
      assert base + p == p;
    } else {
      assert (base + p)[0] == base[0];
      assert (base + p)[1..] == base[1..] + p;
      PathConcat(root.children[base[0]], base[1..], p);
    }
  }

  lemma {:induction false} BeforeUnder(base: Path, p: Path, q: Path)
    requires Before(p, q)
    ensures Before(base + p, base + q)
    decreases |base|
  {
    if base != [] {
      BeforeUnder(base[1..], p, q);
      assert (base + p)[0] == base[0] == (base + q)[0];
      assert (base + p)[1..] == base[1..] + p;
      assert (base + q)[1..] == base[1..] + q;
    } else {
      assert base + p == p && base + q == q;
    }
  }

  lemma SortedUnder(base: Path, ps: seq<Path>)
    requires Sorted(ps)
    ensures Sorted(Under(base, ps))
  {
    forall a, b | 0 <= a < b < |ps| ensures Before(Under(base, ps)[a], Under(base, ps)[b]) {
      BeforeUnder(base, ps[a], ps[b]);
    }
  }

  lemma SortedConcat(a: seq<Path>, b: seq<Path>)
    requires Sorted(a) && Sorted(b)
    requires forall i, j :: 0 <= i < |a| && 0 <= j < |b| ==> Before(a[i], b[j])
    ensures Sorted(a + b)
  {
  }

  /** Select lists exactly the matching positions. */
  lemma {:induction false} SelectSpec(n: Node, q: Query, p: Path)
    ensures p in Select(n, q) <==> ValidPath(n, p) && Matches(At(n, p), q)
    decreases n, |n.children| + 1
  {
    SelectFromSpec(n, 0, q, p);
  }

  lemma {:induction false} SelectFromSpec(n: Node, i: nat, q: Query, p: Path)
    requires i <= |n.children|
    ensures p in SelectFrom(n, i, q) <==>
              |p| > 0 && i <= p[0] && ValidPath(n, p) && Matches(At(n, p), q)
    decreases n, |n.children| - i
  {
    if i < |n.children| {
      SelectFromSpec(n, i + 1, q, p);
      UnderMember([i], Select(n.children[i], q), p);
      if |p| > 0 && p[0] == i {
        SelectSpec(n.children[i], q, p[1..]);
      }
    }
  }

  /** Select lists the matches in preorder. */
  lemma {:induction false} SelectSorted(n: Node, q: Query)
    ensures Sorted(Select(n, q))
    decreases n, |n.children| + 1
  {
    SelectFromSorted(n, 0, q);
    var own: seq<Path> := if Matches(n, q) then [[]] else [];
    forall j | 0 <= j < |SelectFrom(n, 0, q)|
      ensures |SelectFrom(n, 0, q)[j]| > 0
    {
      SelectFromSpec(n, 0, q, SelectFrom(n, 0, q)[j]);
    }
    SortedConcat(own, SelectFrom(n, 0, q));
  }

  lemma {:induction false} SelectFromSorted(n: Node, i: nat, q: Query)
    requires i <= |n.children|
    ensures Sorted(SelectFrom(n, i, q))
    decreases n, |n.children| - i
  {
    if i < |n.children| {
      var head := Under([i], Select(n.children[i], q));
      var tail := SelectFrom(n, i + 1, q);
      SelectSorted(n.children[i], q);
      SortedUnder([i], Select(n.children[i], q));
      SelectFromSorted(n, i + 1, q);
      forall a, b | 0 <= a < |head| && 0 <= b < |tail| ensures Before(head[a], tail[b]) {
        SelectFromSpec(n, i + 1, q, tail[b]);
        assert head[a][0] == i;
      }
      SortedConcat(head, tail);
    }
  }

  /** The recursive search returns the head of the preorder listing. */
  lemma {:induction false} FindFirstSpec(n: Node, q: Query)
    ensures FindFirst(n, q) == First(Select(n, q))
    decreases n, |n.children| + 1
  {
    if !Matches(n, q) {
      FindFromSpec(n, 0, q);
      assert Select(n, q) == SelectFrom(n, 0, q);
    }
  }

  lemma {:induction false} FindFromSpec(n: Node, i: nat, q: Query)
    requires i <= |n.children|
    ensures FindFrom(n, i, q) == First(SelectFrom(n, i, q))
    decreases n, |n.children| - i
  {
    if i < |n.children| {
      FindFirstSpec(n.children[i], q);
      FindFromSpec(n, i + 1, q);
      var head := Under([i], Select(n.children[i], q));
      if head != [] {
        assert (head + SelectFrom(n, i + 1, q))[0] == head[0];
      } else {
        assert head + SelectFrom(n, i + 1, q) == SelectFrom(n, i + 1, q);
      }
    }
  }

  /** The first-match searches return the first match in preorder. */
  lemma FindFirstIsFirstMatch(n: Node, q: Query)
    ensures IsFirstMatch(n, q, FindFirst(n, q))
  {
    var s := Select(n, q);
    FindFirstSpec(n, q);
    SelectSorted(n, q);
    if s != [] {
      SelectSpec(n, q, s[0]);
    }
    forall p | ValidPath(n, p) && Matches(At(n, p), q)
      ensures s != [] && (p == s[0] || Before(s[0], p))
    {
      SelectSpec(n, q, p);
      var j :| 0 <= j < |s| && s[j] == p;
    }
  }

  /** findNodeByClassName: the root is checked before its children; the result is the
      first node in preorder with that class name, or None when there is none. */
  lemma FindNodeByClassNameSpec(root: Node, className: string)
    ensures IsFirstMatch(root, ClassNameIs(className), FindNodeByClassName(root, className))
  {
    FindFirstIsFirstMatch(root, ClassNameIs(className));
  }

  /** findNodeByDescription: no tree gives None; otherwise the first node in preorder
      whose description matches in the given mode. */
  lemma FindNodeByDescriptionSpec(root: Option<Node>, text: string, mode: MatchType)
    ensures root.None? ==> FindNodeByDescription(root, text, mode).None?
    ensures root.Some? ==>
              IsFirstMatch(root.value, DescriptionMatches(text, mode), FindNodeByDescription(root, text, mode))
  {
    if root.Some? {
      FindFirstIsFirstMatch(root.value, DescriptionMatches(text, mode));
    }
  }

  /** The parent walk finds the deepest clickable node on the chain to the root. */
  lemma {:induction false} NearestClickableSpec(root: Node, p: Path)
    requires ValidPath(root, p)
    ensures IsNearestClickable(root, p, NearestClickable(root, p))
    decreases |p|
  {
    PrefixesValid(root, p);
    if !At(root, p).clickable && p != [] {
      var parent := p[..|p| - 1];
      NearestClickableSpec(root, parent);
      assert forall k :: 0 <= k <= |parent| ==> parent[..k] == p[..k];
      assert p[..|p|] == p;
    } else {
      assert p[..|p|] == p;
    }
  }

  /** findClickableNodeByDescription: None when no description matches exactly;
      otherwise the nearest clickable node on the ancestor-or-self chain of the first
      exact match. */
  lemma FindClickableNodeByDescriptionSpec(root: Option<Node>, text: string)
    ensures var d := FindNodeByDescription(root, text, Exact);
            var r := FindClickableNodeByDescription(root, text);
            && (d.None? ==> r.None?)
            && (d.Some? ==> root.Some? && ValidPath(root.value, d.value) &&
                            IsNearestClickable(root.value, d.value, r))
  {
    FindNodeByDescriptionSpec(root, text, Exact);
    var d := FindNodeByDescription(root, text, Exact);
    if d.Some? {
      NearestClickableSpec(root.value, d.value);
    }
  }

  /** The buttons are exactly the actionable nodes inside the first ScrollView, in
      preorder; there are none without a tree or without a ScrollView. */
  lemma ActionableButtonsSpec(root: Option<Node>)
    ensures root.None? ==> ActionableButtons(root) == []
    ensures root.Some? && FindNodeByClassName(root.value, ScrollViewClass).None? ==>
              ActionableButtons(root) == []
    ensures root.Some? && FindNodeByClassName(root.value, ScrollViewClass).Some? ==>
              var sv := FindNodeByClassName(root.value, ScrollViewClass).value;
              ValidPath(root.value, sv) &&
              forall p :: p in ActionableButtons(root) <==>
                sv <= p && ValidPath(root.value, p) && Matches(At(root.value, p), ActionableButton)
    ensures Sorted(ActionableButtons(root))
  {
    if root.Some? {
      FindNodeByClassNameSpec(root.value, ScrollViewClass);
    }
    if root.Some? && FindNodeByClassName(root.value, ScrollViewClass).Some? {
      var r := root.value;
      var sv := FindNodeByClassName(r, ScrollViewClass).value;
      var sub := At(r, sv);
      SelectSorted(sub, ActionableButton);
      SortedUnder(sv, Select(sub, ActionableButton));
      forall p ensures p in ActionableButtons(root) <==>
                 sv <= p && ValidPath(r, p) && Matches(At(r, p), ActionableButton)
      {
        UnderMember(sv, Select(sub, ActionableButton), p);
        if sv <= p {
          assert sv + p[|sv|..] == p;
          PathConcat(r, sv, p[|sv|..]);
          SelectSpec(sub, ActionableButton, p[|sv|..]);
        }
      }
    }
  }
}
