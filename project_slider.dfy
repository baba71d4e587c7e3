/** The project slider: Previous and Next buttons and one dot per project
    ask the application to change the current project index, and the slider
    shows a "k / n" counter, a progress bar and the highlighted dot. The
    application holds the index (initially 0) and sets it to whatever the
    slider requests. */
module ProjectSlider {
  import opened Options

  /** The model formats a project can have: STL, glTF or STEP. */
  datatype FileType = StlFile | GltfFile | StepFile

  datatype Project = Project(id: int, name: string, fileUrl: string, fileType: FileType)

  /** The index invariant the application relies on. */
  predicate InRange(index: int, n: int) {
    0 <= index < n
  }

  // ---------------------------------------------------------------------
  // Handlers: the index each one requests, if any
  // ---------------------------------------------------------------------

  /** Previous requests the index one lower, unless already at the first. */
  function HandlePrevious(current: int): (r: Option<int>)
    ensures r.Some? <==> current > 0
    ensures r.Some? ==> r.value + 1 == current && r.value >= 0
  {
    if current > 0 then Some(current - 1) else None
  }

  /** Next requests the index one higher, unless already at the last; with
      no projects at all its guard never holds for a non-negative index. */
  function HandleNext(current: int, n: int): (r: Option<int>)
    ensures r.Some? <==> current + 1 < n
    ensures r.Some? ==> r.value == current + 1 && r.value < n
  {
    if current < n - 1 then Some(current + 1) else None
  }

  /** The dots are rendered one per project, so a dot's index is in range;
      clicking dot i requests exactly i. */
  function HandleDot(i: int, n: int): (r: Option<int>)
    requires InRange(i, n)
    ensures r == Some(i)
    ensures r.Some? && InRange(r.value, n)
  {
    Some(i)
  }

  /** What the user can click. */
  datatype Click = PreviousButton | NextButton | Dot(index: int)

  /** A click the slider can receive: a dot exists only for each project. */
  predicate Clickable(c: Click, n: int) {
    c.Dot? ==> InRange(c.index, n)
  }

  /** The click wiring: Previous calls its handler, Next calls its
      handler, and dot i asks for index i. Previous only ever asks for the
      index one lower, and Next only for the index one higher. */
  function Request(c: Click, current: int, n: int): (r: Option<int>)
    requires Clickable(c, n)
    ensures c.Dot? ==> r == Some(c.index)
    ensures c.PreviousButton? ==> (r.Some? <==> current > 0) && (r.Some? ==> r.value == current - 1)
    ensures c.NextButton? ==> (r.Some? <==> current + 1 < n) && (r.Some? ==> r.value == current + 1)
  {
    match c
    case PreviousButton => HandlePrevious(current)
    case NextButton => HandleNext(current, n)
    case Dot(i) => HandleDot(i, n)
  }

  /** The application's index after a click: the requested index, or the
      same index when nothing is requested. */
  function Step(current: int, n: int, c: Click): (next: int)
    requires Clickable(c, n)
    ensures Request(c, current, n).Some? ==> next == Request(c, current, n).value
    ensures Request(c, current, n).None? ==> next == current
  {
    match Request(c, current, n)
    case None => current
    case Some(next) => next
  }

  /** Every index a handler requests from a valid index is valid again. */
  lemma StepPreservesRange(current: int, n: int, c: Click)
    requires InRange(current, n) && Clickable(c, n)
    ensures Request(c, current, n).Some? ==> InRange(Request(c, current, n).value, n)
    ensures InRange(Step(current, n, c), n)
  {
  }

  predicate AllClickable(clicks: seq<Click>, n: int) {
    forall k :: 0 <= k < |clicks| ==> Clickable(clicks[k], n)
  }

  /** The index after a sequence of clicks, starting from `current`. With
      no clicks the index is unchanged; when the last click is on a dot, the
      index is that dot's, whatever came before. */
  function Run(current: int, n: int, clicks: seq<Click>): (last: int)
    requires AllClickable(clicks, n)
    ensures clicks == [] ==> last == current
    ensures clicks != [] && clicks[|clicks| - 1].Dot? ==> last == clicks[|clicks| - 1].index
    decreases |clicks|
  {
    if clicks == [] then current
    else Run(Step(current, n, clicks[0]), n, clicks[1..])
  }

  /** The index the application starts with. */
  const InitialIndex: int := 0

  /** Starting from a valid index, no sequence of clicks leaves the range. */
  lemma {:induction false} RunPreservesRange(current: int, n: int, clicks: seq<Click>)
    requires InRange(current, n) && AllClickable(clicks, n)
    ensures InRange(Run(current, n, clicks), n)
    decreases |clicks|
  {
    if clicks != [] {
      StepPreservesRange(current, n, clicks[0]);
      RunPreservesRange(Step(current, n, clicks[0]), n, clicks[1..]);
    }
  }

  /** With at least one project, every index the application ever holds is
      valid, so reading the current project always succeeds. */
  lemma ReachableIndexValid(projects: seq<Project>, clicks: seq<Click>)
    requires |projects| > 0 && AllClickable(clicks, |projects|)
    ensures InRange(Run(InitialIndex, |projects|, clicks), |projects|)
    ensures CurrentProject(projects, Run(InitialIndex, |projects|, clicks)).Some?
  {
    RunPreservesRange(InitialIndex, |projects|, clicks);
  }

  function Repeat(c: Click, k: nat): (r: seq<Click>)
    ensures |r| == k
    ensures forall j :: 0 <= j < k ==> r[j] == c
  {
    if k == 0 then [] else [c] + Repeat(c, k - 1)
  }

  /** Pressing Next k times from index i reaches i + k while that stays in
      range; in particular every project is reachable from the first. */
  lemma {:induction false} NextReaches(i: int, n: int, k: nat)
    requires 0 <= i && i + k < n
    ensures AllClickable(Repeat(NextButton, k), n)
    ensures Run(i, n, Repeat(NextButton, k)) == i + k
    decreases k
  {
    if k > 0 {
      var rest := Repeat(NextButton, k - 1);
      assert Repeat(NextButton, k)[1..] == rest;
      NextReaches(i + 1, n, k - 1);
    }
  }

  /** Previous undoes Next and Next undoes Previous, where they move at all. */
  lemma PreviousNextInverse(i: int, n: int)
    requires InRange(i, n)
    ensures i + 1 < n ==> Step(Step(i, n, NextButton), n, PreviousButton) == i
    ensures i > 0 ==> Step(Step(i, n, PreviousButton), n, NextButton) == i
  {
  }

  // ---------------------------------------------------------------------
  // Derived display values
  // ---------------------------------------------------------------------

  /** A disabled Previous button guards a click that would request nothing. */
  predicate PreviousDisabled(current: int)
    ensures PreviousDisabled(current) ==> HandlePrevious(current).None?
  {
    current == 0
  }

  /** A disabled Next button guards a click that would request nothing. */
  predicate NextDisabled(current: int, n: int)
    ensures NextDisabled(current, n) ==> HandleNext(current, n).None?
  {
    current == n - 1
  }

  /** For a valid index a button is disabled exactly when its handler would
      request nothing. */
  lemma DisabledMatchesGuard(current: int, n: int)
    requires InRange(current, n)
    ensures PreviousDisabled(current) <==> HandlePrevious(current).None?
    ensures NextDisabled(current, n) <==> HandleNext(current, n).None?
  {
  }

  /** The "k / n" counter. */
  datatype Counter = Counter(shown: int, total: int)

  /** The counter shows a 1-based position: for a valid index it lies in
      [1, n], equals n exactly at the last project, and gives the index back. */
  function CounterFor(current: int, n: int): (c: Counter)
    ensures c.total == n
    ensures c.shown - 1 == current
    ensures InRange(current, n) ==> 1 <= c.shown <= c.total
    ensures InRange(current, n) ==> (c.shown == c.total <==> NextDisabled(current, n))
  {
    Counter(current + 1, n)
  }

  /** The filled fraction of the progress bar (its width is this times 100
      percent). The source divides by the number of projects, so there must
      be at least one. */
  function Progress(current: int, n: int): (p: real)
    requires n > 0
    ensures p * n as real == (current + 1) as real
  {
    (current + 1) as real / n as real
  }

  /** For a valid index the progress lies in (0, 1] and is 1 exactly at the
      last project. */
  lemma ProgressBounds(current: int, n: int)
    requires InRange(current, n)
    ensures 0.0 < Progress(current, n) <= 1.0
    ensures Progress(current, n) == 1.0 <==> current == n - 1
  {
    var p := Progress(current, n);
    assert p * n as real == (current + 1) as real;
    if p == 1.0 {
      assert (current + 1) as real == n as real;
    }
  }

  /** The bar grows strictly with the index. */
  lemma ProgressIncreasing(i: int, j: int, n: int)
    requires n > 0 && i < j
    ensures Progress(i, n) < Progress(j, n)
  {
    var a, b := (i + 1) as real, (j + 1) as real;
    assert Progress(i, n) * n as real == a;
    assert Progress(j, n) * n as real == b;
  }

  /** Which dots are drawn highlighted: dot i is when i is the current index. */
  function Highlights(current: int, n: nat): (h: seq<bool>)
    ensures |h| == n
    ensures forall i :: 0 <= i < n ==> (h[i] <==> i == current)
  {
    seq(n, i => i == current)
  }

  function CountTrue(s: seq<bool>): nat {
    if s == [] then 0 else (if s[0] then 1 else 0) + CountTrue(s[1..])
  }

  /** The number of highlighted dots among those for indices from `from`. */
  lemma {:induction false} CountHighlights(s: seq<bool>, current: int, from: int)
    requires forall i :: 0 <= i < |s| ==> (s[i] <==> from + i == current)
    ensures CountTrue(s) == if from <= current < from + |s| then 1 else 0
    decreases |s|
  {
    if s != [] {
      CountHighlights(s[1..], current, from + 1);
    }
  }

  /** Exactly one dot is highlighted when the index is valid, and none
      otherwise. */
  lemma ExactlyOneHighlighted(current: int, n: nat)
    ensures CountTrue(Highlights(current, n)) == if InRange(current, n) then 1 else 0
  {
    CountHighlights(Highlights(current, n), current, 0);
  }

  /** After clicking dot i, dot i is the one highlighted dot. */
  lemma DotClickHighlightsDot(current: int, n: nat, i: int)
    requires InRange(i, n)
    ensures Step(current, n, Dot(i)) == i
    ensures Highlights(Step(current, n, Dot(i)), n)[i]
    ensures CountTrue(Highlights(Step(current, n, Dot(i)), n)) == 1
  {
    ExactlyOneHighlighted(i, n);
  }

  /** The project whose name and format are shown: an optional read that is
      empty for an index outside the list. */
  function CurrentProject(projects: seq<Project>, current: int): (r: Option<Project>)
    ensures r.Some? <==> InRange(current, |projects|)
    ensures r.Some? ==> r.value == projects[current]
  {
    if 0 <= current < |projects| then Some(projects[current]) else None
  }
}
