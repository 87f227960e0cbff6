/** Properties of the controller's transitions, stated over the value model in Deck. */
module DeckFacts {
  import Decimal
  import opened Deck

  // ---------------------------------------------------------------- render

  lemma {:induction false} CountActive(n: nat, cur: int)
    ensures CountTrue(ActiveFlags(n, cur)) == if 0 <= cur < n then 1 else 0
  {
    if n > 0 {
      assert ActiveFlags(n, cur)[..n - 1] == ActiveFlags(n - 1, cur);
      CountActive(n - 1, cur);
    }
  }

  /** Under Rendered, exactly one slide is active and it is the current one. */
  lemma OneActive(d: State)
    requires Rendered(d)
    ensures CountTrue(d.active) == 1
    ensures forall k :: 0 <= k < d.slideCount ==> (d.active[k] <==> k == d.current)
  {
    CountActive(d.slideCount, d.current);
  }

  /** Render touches only the active flags and the labels, and establishes Rendered. */
  lemma RenderEstablishes(d: State)
    requires WellFormed(d)
    ensures Rendered(Render(d))
    ensures Render(d) == d.(active := Render(d).active, labels := Render(d).labels)
    ensures CountTrue(Render(d).active) == 1 && Render(d).active[d.current]
  {
    OneActive(Render(d));
  }

  /** The label formula: empty on slide 0, the decimal text of k + 1 on slide k > 0, untouched without a number element. */
  lemma RenderLabel(d: State, k: nat)
    requires WellFormed(d) && k < d.slideCount
    ensures d.hasNumber[k] && k == 0 ==> Render(d).labels[k] == ""
    ensures d.hasNumber[k] && k > 0 ==>
      && Decimal.AllDigits(Render(d).labels[k]) && Decimal.Value(Render(d).labels[k]) == k + 1
      && Render(d).labels[k][0] != '0'
    ensures !d.hasNumber[k] ==> Render(d).labels[k] == d.labels[k]
  {
    if k > 0 {
      Decimal.ValueOfText(k + 1);
    }
  }

  lemma RenderIdempotent(d: State)
    requires WellFormed(d)
    ensures Render(Render(d)) == Render(d)
  {
  }

  /** The labels do not depend on which slide is current. */
  lemma LabelsIgnoreIndex(d: State, j: int)
    requires WellFormed(d) && 0 <= j < d.slideCount
    ensures Render(d.(current := j)).labels == Render(d).labels
  {
  }

  /** Two numbered slides past the first never show the same label. */
  lemma LabelsDistinct(d: State, a: nat, b: nat)
    requires Rendered(d)
    requires 0 < a < d.slideCount && 0 < b < d.slideCount && a != b
    requires d.hasNumber[a] && d.hasNumber[b]
    ensures d.labels[a] != d.labels[b]
  {
    Decimal.TextInjective(a + 1, b + 1);
  }

  // ----------------------------------------------------------- scroll / goto

  lemma ScrollOutOfRange(d: State, i: int)
    requires WellFormed(d) && (i < 0 || i >= d.slideCount)
    ensures ScrollTo(d, i) == d
  {
  }

  lemma ScrollInRange(d: State, i: int)
    requires WellFormed(d) && 0 <= i < d.slideCount
    ensures ScrollTo(d, i).current == i && Rendered(ScrollTo(d, i))
    ensures CountTrue(ScrollTo(d, i).active) == 1
    ensures forall k :: 0 <= k < d.slideCount ==> (ScrollTo(d, i).active[k] <==> k == i)
    ensures ScrollTo(d, i).fragments == d.fragments && ScrollTo(d, i).fullscreen == d.fullscreen
    ensures ScrollTo(d, i).scaleApplied == d.scaleApplied
    ensures ScrollTo(d, i).scrolls == if d.fullscreen then d.scrolls else d.scrolls + [i]
  {
    OneActive(ScrollTo(d, i));
  }

  // ------------------------------------------------------------- fragments

  lemma {:induction false} CountTrueUpdate(s: seq<bool>, j: nat, b: bool)
    requires j < |s|
    ensures CountTrue(s[j := b]) + (if s[j] then 1 else 0) == CountTrue(s) + (if b then 1 else 0)
  {
    var t := s[j := b];
    if j == |s| - 1 {
      assert t[..|t| - 1] == s[..|s| - 1];
    } else {
      assert t[..|t| - 1] == s[..|s| - 1][j := b];
      CountTrueUpdate(s[..|s| - 1], j, b);
    }
  }

  /** Advancing on a slide with a hidden fragment shows exactly the first one and stays on the slide. */
  lemma NextReveals(d: State)
    requires WellFormed(d)
    requires FirstHidden(d.fragments[d.current]).Some?
    ensures var f, j := d.fragments[d.current], FirstHidden(d.fragments[d.current]).value;
      && Next(d) == d.(fragments := d.fragments[d.current := f[j := true]])
      && !f[j] && (forall i :: 0 <= i < j ==> f[i])
      && CountTrue(Next(d).fragments[d.current]) == CountTrue(f) + 1
  {
    var f, j := d.fragments[d.current], FirstHidden(d.fragments[d.current]).value;
    CountTrueUpdate(f, j, true);
  }

  /** With every fragment shown, advancing is going to the next slide; on the last slide it does nothing. */
  lemma NextMoves(d: State)
    requires WellFormed(d)
    requires FirstHidden(d.fragments[d.current]).None?
    ensures Next(d) == ScrollTo(d, d.current + 1)
    ensures d.current == d.slideCount - 1 ==> Next(d) == d
  {
  }

  /** Retreating on a slide with a shown fragment hides exactly the last one and stays on the slide. */
  lemma PrevHides(d: State)
    requires WellFormed(d)
    requires LastVisible(d.fragments[d.current]).Some?
    ensures var f, j := d.fragments[d.current], LastVisible(d.fragments[d.current]).value;
      && Prev(d) == d.(fragments := d.fragments[d.current := f[j := false]])
      && f[j] && (forall i :: j < i < |f| ==> !f[i])
      && CountTrue(Prev(d).fragments[d.current]) + 1 == CountTrue(f)
  {
    var f, j := d.fragments[d.current], LastVisible(d.fragments[d.current]).value;
    CountTrueUpdate(f, j, false);
  }

  /** With no fragment shown, retreating is going to the previous slide; on slide 0 it does nothing. */
  lemma PrevMoves(d: State)
    requires WellFormed(d)
    requires LastVisible(d.fragments[d.current]).None?
    ensures Prev(d) == ScrollTo(d, d.current - 1)
    ensures d.current == 0 ==> Prev(d) == d
  {
  }

  /** Stepping never touches the fragments of a slide other than the current one. */
  lemma StepsTouchOnlyCurrent(d: State)
    requires WellFormed(d)
    ensures |Next(d).fragments| == |Prev(d).fragments| == d.slideCount
    ensures forall s :: 0 <= s < d.slideCount && s != d.current ==>
      Next(d).fragments[s] == d.fragments[s] && Prev(d).fragments[s] == d.fragments[s]
  {
  }

  lemma RevealKeepsPrefix(f: seq<bool>)
    requires VisiblePrefix(f) && FirstHidden(f).Some?
    ensures VisiblePrefix(f[FirstHidden(f).value := true])
  {
    var j := FirstHidden(f).value;
    var g := f[j := true];
    forall i, k | 0 <= i < k < |g| && g[k]
      ensures g[i]
    {
      if k != j {
        assert f[k];
      }
    }
  }

  /** The first hidden fragment is determined by its defining property. */
  lemma FirstHiddenIs(f: seq<bool>, j: nat)
    requires j < |f| && !f[j] && forall i :: 0 <= i < j ==> f[i]
    ensures FirstHidden(f) == Some(j)
  {
    assert FirstHidden(f).Some?;
  }

  /** The last visible fragment is determined by its defining property. */
  lemma LastVisibleIs(f: seq<bool>, j: nat)
    requires j < |f| && f[j] && forall i :: j < i < |f| ==> !f[i]
    ensures LastVisible(f) == Some(j)
  {
    assert LastVisible(f).Some?;
  }

  lemma HideKeepsPrefix(f: seq<bool>)
    requires VisiblePrefix(f) && LastVisible(f).Some?
    ensures VisiblePrefix(f[LastVisible(f).value := false])
  {
  }

  lemma NextKeepsPrefix(d: State)
    requires WellFormed(d) && AllPrefix(d)
    ensures AllPrefix(Next(d))
  {
    var f := d.fragments[d.current];
    if FirstHidden(f).Some? {
      RevealKeepsPrefix(f);
    }
  }

  lemma PrevKeepsPrefix(d: State)
    requires WellFormed(d) && AllPrefix(d)
    ensures AllPrefix(Prev(d))
  {
    var f := d.fragments[d.current];
    if LastVisible(f).Some? {
      HideKeepsPrefix(f);
    }
  }

  /** On a slide whose shown fragments form a prefix, retreating undoes an advance that revealed a fragment. */
  lemma PrevUndoesNext(d: State)
    requires WellFormed(d)
    requires VisiblePrefix(d.fragments[d.current]) && FirstHidden(d.fragments[d.current]).Some?
    ensures Prev(Next(d)) == d
  {
    var f := d.fragments[d.current];
    var j := FirstHidden(f).value;
    var g := f[j := true];
    assert forall i :: j < i < |f| ==> !g[i];
    LastVisibleIs(g, j);
    assert g[j := false] == f;
  }

  /** On a slide whose shown fragments form a prefix, advancing undoes a retreat that hid a fragment. */
  lemma NextUndoesPrev(d: State)
    requires WellFormed(d)
    requires VisiblePrefix(d.fragments[d.current]) && LastVisible(d.fragments[d.current]).Some?
    ensures Next(Prev(d)) == d
  {
    var f := d.fragments[d.current];
    var j := LastVisible(f).value;
    var g := f[j := false];
    assert forall i :: 0 <= i < j ==> g[i];
    FirstHiddenIs(g, j);
    assert g[j := true] == f;
  }

  /** Without the prefix shape the undo fails: shown [no, yes], advance shows 0, retreat then hides 1. */
  lemma UndoNeedsPrefix()
    ensures var d := State(1, 0, true, [[false, true]], [false], [""], [true], true, []);
      WellFormed(d) && Prev(Next(d)) != d
  {
    var d := State(1, 0, true, [[false, true]], [false], [""], [true], true, []);
    assert FirstHidden([false, true]) == Some(0);
    assert LastVisible([true, true]) == Some(1);
    assert Prev(Next(d)).fragments[0] == [true, false];
  }

  /** The shown-flags of m fragments of which exactly the first k are shown. */
  ghost function ShownFirst(m: nat, k: nat): (f: seq<bool>)
    ensures |f| == m && forall j :: 0 <= j < m ==> f[j] == (j < k)
  {
    seq(m, j => j < k)
  }

  /** On a slide showing exactly its first n fragments, one advance shows the first n + 1. */
  lemma RevealOne(e: State, n: nat)
    requires WellFormed(e)
    requires n < |e.fragments[e.current]|
    requires e.fragments[e.current] == ShownFirst(|e.fragments[e.current]|, n)
    ensures Next(e) == e.(fragments := e.fragments[e.current := ShownFirst(|e.fragments[e.current]|, n + 1)])
  {
    var g := e.fragments[e.current];
    FirstHiddenIs(g, n);
    assert g[n := true] == ShownFirst(|g|, n + 1);
  }

  /** On a slide showing exactly its first n + 1 fragments, one retreat leaves the first n shown. */
  lemma HideOne(e: State, n: nat)
    requires WellFormed(e)
    requires n < |e.fragments[e.current]|
    requires e.fragments[e.current] == ShownFirst(|e.fragments[e.current]|, n + 1)
    ensures Prev(e) == e.(fragments := e.fragments[e.current := ShownFirst(|e.fragments[e.current]|, n)])
  {
    var g := e.fragments[e.current];
    LastVisibleIs(g, n);
    assert g[n := false] == ShownFirst(|g|, n);
  }

  /** Starting from all hidden, k advances show exactly the first k fragments and stay on the slide. */
  lemma {:induction false} RevealInOrder(d: State, k: nat)
    requires WellFormed(d)
    requires forall j :: 0 <= j < |d.fragments[d.current]| ==> !d.fragments[d.current][j]
    requires k <= |d.fragments[d.current]|
    ensures NextTimes(d, k) == d.(fragments := d.fragments[d.current := ShownFirst(|d.fragments[d.current]|, k)])
  {
    if k == 0 {
      NoneShown(d);
    } else {
      RevealInOrder(d, k - 1);
      RevealStep(d, k);
    }
  }

  /** A slide with every fragment hidden is already the slide with its first 0 shown. */
  lemma NoneShown(d: State)
    requires WellFormed(d)
    requires forall j :: 0 <= j < |d.fragments[d.current]| ==> !d.fragments[d.current][j]
    ensures d == d.(fragments := d.fragments[d.current := ShownFirst(|d.fragments[d.current]|, 0)])
  {
    assert ShownFirst(|d.fragments[d.current]|, 0) == d.fragments[d.current];
    assert d.fragments[d.current := d.fragments[d.current]] == d.fragments;
  }

  lemma RevealStep(d: State, k: nat)
    requires WellFormed(d) && 0 < k <= |d.fragments[d.current]|
    requires NextTimes(d, k - 1) == d.(fragments := d.fragments[d.current := ShownFirst(|d.fragments[d.current]|, k - 1)])
    ensures NextTimes(d, k) == d.(fragments := d.fragments[d.current := ShownFirst(|d.fragments[d.current]|, k)])
  {
    var m := |d.fragments[d.current]|;
    var e := NextTimes(d, k - 1);
    RevealOne(e, k - 1);
    var h := ShownFirst(m, k);
    assert e.fragments[e.current := h] == d.fragments[d.current := h];
  }

  /** Once every fragment of an all-hidden slide is shown, the next advance goes to the next slide. */
  lemma AdvancePastFragments(d: State)
    requires WellFormed(d)
    requires forall j :: 0 <= j < |d.fragments[d.current]| ==> !d.fragments[d.current][j]
    ensures var m := |d.fragments[d.current]|;
      NextTimes(d, m + 1) == ScrollTo(NextTimes(d, m), d.current + 1)
  {
    var m := |d.fragments[d.current]|;
    RevealInOrder(d, m);
    NextAtEnd(NextTimes(d, m));
  }

  /** With every fragment of the current slide shown, an advance moves on. */
  lemma NextAtEnd(e: State)
    requires WellFormed(e)
    requires e.fragments[e.current] == ShownFirst(|e.fragments[e.current]|, |e.fragments[e.current]|)
    ensures Next(e) == ScrollTo(e, e.current + 1)
  {
    assert FirstHidden(e.fragments[e.current]).None?;
  }

  /** Starting from all shown, k retreats hide the last k fragments, latest first, and stay on the slide. */
  lemma {:induction false} HideInReverseOrder(d: State, k: nat)
    requires WellFormed(d)
    requires forall j :: 0 <= j < |d.fragments[d.current]| ==> d.fragments[d.current][j]
    requires k <= |d.fragments[d.current]|
    ensures var m := |d.fragments[d.current]|;
      PrevTimes(d, k) == d.(fragments := d.fragments[d.current := ShownFirst(m, m - k)])
  {
    if k == 0 {
      AllShown(d);
    } else {
      HideInReverseOrder(d, k - 1);
      HideStep(d, k);
    }
  }

  /** A slide with every fragment shown is already the slide with its first m of m shown. */
  lemma AllShown(d: State)
    requires WellFormed(d)
    requires forall j :: 0 <= j < |d.fragments[d.current]| ==> d.fragments[d.current][j]
    ensures var m := |d.fragments[d.current]|;
      d == d.(fragments := d.fragments[d.current := ShownFirst(m, m)])
  {
    var m := |d.fragments[d.current]|;
    assert ShownFirst(m, m) == d.fragments[d.current];
    assert d.fragments[d.current := d.fragments[d.current]] == d.fragments;
  }

  lemma HideStep(d: State, k: nat)
    requires WellFormed(d) && 0 < k <= |d.fragments[d.current]|
    requires var m := |d.fragments[d.current]|;
      PrevTimes(d, k - 1) == d.(fragments := d.fragments[d.current := ShownFirst(m, m - k + 1)])
    ensures var m := |d.fragments[d.current]|;
      PrevTimes(d, k) == d.(fragments := d.fragments[d.current := ShownFirst(m, m - k)])
  {
    var m := |d.fragments[d.current]|;
    var e := PrevTimes(d, k - 1);
    HideOne(e, m - k);
    var h := ShownFirst(m, m - k);
    assert e.fragments[e.current := h] == d.fragments[d.current := h];
  }

  /** Once every fragment of an all-shown slide is hidden, the next retreat goes to the previous slide. */
  lemma RetreatPastFragments(d: State)
    requires WellFormed(d)
    requires forall j :: 0 <= j < |d.fragments[d.current]| ==> d.fragments[d.current][j]
    ensures var m := |d.fragments[d.current]|;
      PrevTimes(d, m + 1) == ScrollTo(PrevTimes(d, m), d.current - 1)
  {
    var m := |d.fragments[d.current]|;
    HideInReverseOrder(d, m);
    PrevAtStart(PrevTimes(d, m));
  }

  /** With every fragment of the current slide hidden, a retreat moves back. */
  lemma PrevAtStart(e: State)
    requires WellFormed(e)
    requires e.fragments[e.current] == ShownFirst(|e.fragments[e.current]|, 0)
    ensures Prev(e) == ScrollTo(e, e.current - 1)
  {
    assert LastVisible(e.fragments[e.current]).None?;
  }

  // ------------------------------------------------------ nearest to the top

  /** In fullscreen the resync changes nothing, not even the rendering. */
  lemma ResyncInFullscreen(d: State, ds: seq<nat>)
    requires WellFormed(d) && |ds| == d.slideCount && d.fullscreen
    ensures Resync(d, ds) == d
  {
  }

  /** Outside fullscreen the resync makes the nearest slide current (lowest index on a tie) and renders. */
  lemma ResyncPicksNearest(d: State, ds: seq<nat>)
    requires WellFormed(d) && |ds| == d.slideCount && !d.fullscreen
    ensures var r := Resync(d, ds);
      && Rendered(r) && CountTrue(r.active) == 1
      && (forall j :: 0 <= j < |ds| ==> ds[r.current] <= ds[j])
      && (forall j :: 0 <= j < r.current ==> ds[r.current] < ds[j])
      && r.fragments == d.fragments && r.fullscreen == d.fullscreen && r.scrolls == d.scrolls
  {
    OneActive(Resync(d, ds));
  }

  /** The lowest index of least distance is unique, so ArgMin is the only slide the scan can pick. */
  lemma ArgMinUnique(ds: seq<nat>, k: nat)
    requires k < |ds|
    requires forall j :: 0 <= j < |ds| ==> ds[k] <= ds[j]
    requires forall j :: 0 <= j < k ==> ds[k] < ds[j]
    ensures k == ArgMin(ds)
  {
  }

  // ------------------------------------------------------------- keyboard

  /** The dispatch table, key group by key group; every other key is ignored. */
  lemma KeyTable(key: string)
    ensures KeyAction(key) == Some(Advance) <==> key in NextKeys
    ensures KeyAction(key) == Some(Retreat) <==> key in PrevKeys
    ensures KeyAction(key) == Some(ToggleFullscreen) <==> key in ToggleKeys
    ensures KeyAction(key) == Some(GoFirst) <==> key == "Home"
    ensures KeyAction(key) == Some(GoLast) <==> key == "End"
    ensures KeyAction(key) == None <==>
      key !in NextKeys && key !in PrevKeys && key !in ToggleKeys && key != "Home" && key != "End"
  {
  }

  /** A key is reported handled exactly when it is in the table; outside fullscreen the resync comes first. */
  lemma KeydownDispatch(d: State, key: string, ds: seq<nat>)
    requires WellFormed(d) && |ds| == d.slideCount
    ensures var (r, handled) := Keydown(d, key, ds);
      var d1 := Resync(d, ds);
      && (handled <==> KeyAction(key).Some?)
      && (KeyAction(key).None? ==> r == d1)
      && (KeyAction(key) == Some(Advance) ==> r == Next(d1))
      && (KeyAction(key) == Some(Retreat) ==> r == Prev(d1))
      && (KeyAction(key) == Some(ToggleFullscreen) ==> r == d1 && r.fullscreen == d.fullscreen)
      && (KeyAction(key) == Some(GoFirst) ==> r == ScrollTo(d1, 0) && r.current == 0)
      && (KeyAction(key) == Some(GoLast) ==> r == ScrollTo(d1, d.slideCount - 1) && r.current == d.slideCount - 1)
  {
  }

  /** Only f/F asks the browser anything: enter when not fullscreen, else exit when the browser offers it. */
  lemma KeyRequests(key: string, browserFullscreen: bool, exitAvailable: bool)
    ensures KeyRequest(key, browserFullscreen, exitAvailable) != NoRequest ==> key in ToggleKeys
    ensures key in ToggleKeys && !browserFullscreen ==>
      KeyRequest(key, browserFullscreen, exitAvailable) == RequestEnter
    ensures key in ToggleKeys && browserFullscreen ==>
      KeyRequest(key, browserFullscreen, exitAvailable) == if exitAvailable then RequestExit else NoRequest
  {
    KeyTable(key);
  }

  // ----------------------------------------------------------- fullscreen

  lemma EnterFullscreen(d: State)
    requires WellFormed(d)
    ensures var r := FullscreenChange(d, true);
      && r.fullscreen && r.scaleApplied && Rendered(r)
      && r.current == d.current && r.fragments == d.fragments && r.scrolls == d.scrolls
  {
  }

  /** Leaving fullscreen clears the scale; the later re-alignment scrolls back to the current slide. */
  lemma ExitFullscreen(d: State)
    requires WellFormed(d)
    ensures var r := FullscreenChange(d, false);
      && !r.fullscreen && !r.scaleApplied
      && r == d.(fullscreen := false, scaleApplied := false)
      && Realign(r).current == d.current && Rendered(Realign(r))
      && Realign(r).scrolls == d.scrolls + [d.current as nat]
  {
  }

  // ------------------------------------------------------------ invariants

  /** What the page shows once rendered: the current slide alone active, every label right, the scale matching the mode. */
  ghost predicate Displayed(d: State) {
    Rendered(d) && ScaleMatchesMode(d)
  }

  /** A load outside fullscreen ends displayed, on the nearest slide, with the markup's fragments untouched. */
  lemma StartupEstablishes(d: State, ds: seq<nat>)
    requires WellFormed(d) && |ds| == d.slideCount && !d.fullscreen
    ensures Displayed(Startup(d, ds))
    ensures Startup(d, ds).current == ArgMin(ds) && Startup(d, ds).fragments == d.fragments
  {
  }

  lemma RenderDisplays(d: State)
    requires WellFormed(d) && ScaleMatchesMode(d)
    ensures Displayed(Render(d))
  {
    RenderEstablishes(d);
  }

  lemma ScrollKeepsDisplayed(d: State, i: int)
    requires WellFormed(d) && Displayed(d)
    ensures Displayed(ScrollTo(d, i))
  {
    if 0 <= i < d.slideCount {
      RenderDisplays(d.(current := i));
    }
  }

  lemma NextKeepsDisplayed(d: State)
    requires WellFormed(d) && Displayed(d)
    ensures Displayed(Next(d))
  {
    if FirstHidden(d.fragments[d.current]).None? {
      ScrollKeepsDisplayed(d, d.current + 1);
    }
  }

  lemma PrevKeepsDisplayed(d: State)
    requires WellFormed(d) && Displayed(d)
    ensures Displayed(Prev(d))
  {
    if LastVisible(d.fragments[d.current]).None? {
      ScrollKeepsDisplayed(d, d.current - 1);
    }
  }

  lemma KeydownKeepsDisplayed(d: State, key: string, ds: seq<nat>)
    requires WellFormed(d) && |ds| == d.slideCount && Displayed(d)
    ensures Displayed(Keydown(d, key, ds).0)
  {
    var d1 := if !d.fullscreen then Resync(d, ds) else d;
    if !d.fullscreen {
      RenderDisplays(d.(current := ArgMin(ds)));
    }
    match KeyAction(key)
    case None =>
    case Some(Advance) => NextKeepsDisplayed(d1);
    case Some(Retreat) => PrevKeepsDisplayed(d1);
    case Some(ToggleFullscreen) =>
    case Some(GoFirst) => ScrollKeepsDisplayed(d1, 0);
    case Some(GoLast) => ScrollKeepsDisplayed(d1, d1.slideCount - 1);
  }

  /** Prefix-shaped fragments stay prefix-shaped through a key press: only next and prev touch fragments. */
  lemma KeydownKeepsPrefix(d: State, key: string, ds: seq<nat>)
    requires WellFormed(d) && |ds| == d.slideCount && AllPrefix(d)
    ensures AllPrefix(Keydown(d, key, ds).0)
  {
    var d1 := if !d.fullscreen then Resync(d, ds) else d;
    assert d1.fragments == d.fragments;
    NextKeepsPrefix(d1);
    PrevKeepsPrefix(d1);
  }

  lemma StepKeepsDisplayed(d: State, e: Event)
    requires WellFormed(d) && Fits(d.slideCount, e) && Displayed(d)
    ensures Displayed(Step(d, e))
  {
    match e
    case KeyDown(key, ds) => KeydownKeepsDisplayed(d, key, ds);
    case FullscreenChanged(now) =>
    case RealignTimer => ScrollKeepsDisplayed(d, d.current);
    case Resize =>
  }

  lemma StepKeepsPrefix(d: State, e: Event)
    requires WellFormed(d) && Fits(d.slideCount, e) && AllPrefix(d)
    ensures AllPrefix(Step(d, e))
  {
    if e.KeyDown? {
      KeydownKeepsPrefix(d, e.key, e.distances);
    }
  }

  /** Any sequence of events keeps the index in range, exactly one slide active, the labels right and the scale matching the mode. */
  lemma {:induction false} RunKeepsDisplayed(d: State, es: seq<Event>)
    requires WellFormed(d) && (forall e :: e in es ==> Fits(d.slideCount, e)) && Displayed(d)
    ensures Displayed(Run(d, es))
    ensures 0 <= Run(d, es).current < d.slideCount && CountTrue(Run(d, es).active) == 1
    decreases |es|
  {
    if es == [] {
      OneActive(d);
    } else {
      StepKeepsDisplayed(d, es[0]);
      RunKeepsDisplayed(Step(d, es[0]), es[1..]);
    }
  }

  /** Any sequence of events keeps every slide's shown fragments a prefix, if they were one. */
  lemma {:induction false} RunKeepsPrefix(d: State, es: seq<Event>)
    requires WellFormed(d) && (forall e :: e in es ==> Fits(d.slideCount, e)) && AllPrefix(d)
    ensures AllPrefix(Run(d, es))
    decreases |es|
  {
    if es != [] {
      StepKeepsPrefix(d, es[0]);
      RunKeepsPrefix(Step(d, es[0]), es[1..]);
    }
  }

  // ------------------------------------------------------- shown fragments

  /** Every fragment shown in d is still shown in r, and every slide keeps its fragment count. */
  ghost predicate KeepsShown(d: State, r: State) {
    && |r.fragments| == |d.fragments|
    && forall s :: 0 <= s < |d.fragments| ==>
      && |r.fragments[s]| == |d.fragments[s]|
      && forall j :: 0 <= j < |d.fragments[s]| && d.fragments[s][j] ==> r.fragments[s][j]
  }

  /** A key press the switch sends to handlePrev. */
  ghost predicate IsRetreat(e: Event) {
    e.KeyDown? && KeyAction(e.key) == Some(Retreat)
  }

  lemma KeepsShownTrans(a: State, b: State, c: State)
    requires KeepsShown(a, b) && KeepsShown(b, c)
    ensures KeepsShown(a, c)
  {
  }

  /** Next only ever turns a fragment on. */
  lemma NextKeepsShown(d: State)
    requires WellFormed(d)
    ensures KeepsShown(d, Next(d))
  {
    if FirstHidden(d.fragments[d.current]).Some? {
      NextReveals(d);
    }
  }

  /** A fragment, once shown, stays shown under every event but a retreat key. */
  lemma StepKeepsShown(d: State, e: Event)
    requires WellFormed(d) && Fits(d.slideCount, e) && !IsRetreat(e)
    ensures KeepsShown(d, Step(d, e))
  {
    if e.KeyDown? {
      KeydownDispatch(d, e.key, e.distances);
      var d1 := Resync(d, e.distances);
      assert d1.fragments == d.fragments;
      if KeyAction(e.key) == Some(Advance) {
        NextKeepsShown(d1);
      }
    }
  }

  /** Over any sequence of events without a retreat key, every shown fragment stays shown. */
  lemma {:induction false} RunKeepsShown(d: State, es: seq<Event>)
    requires WellFormed(d) && (forall e :: e in es ==> Fits(d.slideCount, e) && !IsRetreat(e))
    ensures KeepsShown(d, Run(d, es))
    decreases |es|
  {
    if es != [] {
      StepKeepsShown(d, es[0]);
      RunKeepsShown(Step(d, es[0]), es[1..]);
      KeepsShownTrans(d, Step(d, es[0]), Run(Step(d, es[0]), es[1..]));
    }
  }

  /** A key of the GoFirst or GoLast kind, pressed outside fullscreen, lands on slide `target` whatever the geometry. */
  lemma JumpKey(d: State, key: string, ds: seq<nat>, target: nat)
    requires WellFormed(d) && |ds| == d.slideCount && !d.fullscreen
    requires (key == "Home" && target == 0) || (key == "End" && target == d.slideCount - 1)
    ensures var r := Keydown(d, key, ds).0;
      && r.current == target && Rendered(r) && r.scrolls == d.scrolls + [target]
      && r.fragments == d.fragments && !r.fullscreen
  {
    KeyTable(key);
    KeydownDispatch(d, key, ds);
    ResyncPicksNearest(d, ds);
    ScrollInRange(Resync(d, ds), target);
  }

  /** ArrowLeft, pressed outside fullscreen with slide `at` nearest the top and no fragment shown on it, lands on `at - 1`. */
  lemma LeftKey(d: State, ds: seq<nat>, at: nat)
    requires WellFormed(d) && |ds| == d.slideCount && !d.fullscreen
    requires 0 < at < d.slideCount && ArgMin(ds) == at && LastVisible(d.fragments[at]).None?
    ensures var r := Keydown(d, "ArrowLeft", ds).0;
      && r.current == at - 1 && Rendered(r) && r.scrolls == d.scrolls + [at - 1]
      && r.fragments == d.fragments && !r.fullscreen
  {
    KeyTable("ArrowLeft");
    KeydownDispatch(d, "ArrowLeft", ds);
    var e := Resync(d, ds);
    ResyncPicksNearest(d, ds);
    PrevMoves(e);
    ScrollInRange(e, at - 1);
  }

  /**
    From a five-slide deck, every slide numbered and slide 4 without fragments:
    Home goes to slide 0, End (after the page has scrolled there) to slide 4, and
    ArrowLeft (likewise) to slide 3, with the labels "", "5" and "4".
   */
  lemma ThreeKeyWalk(s: State)
    requires WellFormed(s) && s.slideCount == 5 && !s.fullscreen && s.scrolls == []
    requires forall k :: 0 <= k < 5 ==> s.hasNumber[k]
    requires s.fragments[4] == []
    ensures var s1 := Keydown(s, "Home", [200, 100, 0, 100, 200]).0;
      var s2 := Keydown(s1, "End", [0, 100, 200, 300, 400]).0;
      var s3 := Keydown(s2, "ArrowLeft", [400, 300, 200, 100, 0]).0;
      && s1.current == 0 && s1.active[0] && s1.labels[0] == ""
      && s2.current == 4 && s2.active[4] && s2.labels[4] == "5"
      && s3.current == 3 && s3.active[3] && s3.labels[3] == "4"
      && s3.scrolls == [0, 4, 3]
  {
    ArgMinUnique([400, 300, 200, 100, 0], 4);
    JumpKey(s, "Home", [200, 100, 0, 100, 200], 0);
    var s1 := Keydown(s, "Home", [200, 100, 0, 100, 200]).0;
    assert s1.scrolls == [0] && s1.fragments == s.fragments;
    OneActive(s1);
    JumpKey(s1, "End", [0, 100, 200, 300, 400], 4);
    var s2 := Keydown(s1, "End", [0, 100, 200, 300, 400]).0;
    assert s2.scrolls == [0, 4] && s2.fragments[4] == [];
    OneActive(s2);
    assert Decimal.Text(5) == "5";
    LeftKey(s2, [400, 300, 200, 100, 0], 4);
    var s3 := Keydown(s2, "ArrowLeft", [400, 300, 200, 100, 0]).0;
    assert s3.scrolls == [0, 4, 3];
    OneActive(s3);
    assert Decimal.Text(4) == "4";
  }

  /** The same deck first viewed scrolled to slide 2 starts there, and the walk above follows. */
  lemma FiveSlideWalk(d0: State)
    requires WellFormed(d0) && d0.slideCount == 5 && !d0.fullscreen && d0.scrolls == []
    requires forall k :: 0 <= k < 5 ==> d0.hasNumber[k]
    requires d0.fragments[4] == []
    ensures var s := Startup(d0, [200, 100, 0, 100, 200]);
      var s1 := Keydown(s, "Home", [200, 100, 0, 100, 200]).0;
      var s2 := Keydown(s1, "End", [0, 100, 200, 300, 400]).0;
      var s3 := Keydown(s2, "ArrowLeft", [400, 300, 200, 100, 0]).0;
      && s.current == 2
      && s1.current == 0 && s1.active[0] && s1.labels[0] == ""
      && s2.current == 4 && s2.active[4] && s2.labels[4] == "5"
      && s3.current == 3 && s3.active[3] && s3.labels[3] == "4"
      && s3.scrolls == [0, 4, 3]
  {
    ArgMinUnique([200, 100, 0, 100, 200], 2);
    var s := Startup(d0, [200, 100, 0, 100, 200]);
    ResyncPicksNearest(UpdateScale(d0), [200, 100, 0, 100, 200]);
    assert s.current == 2 && s.scrolls == [] && s.fragments == d0.fragments && !s.fullscreen;
    ThreeKeyWalk(s);
  }
}
