/**
  The slide-deck controller as values: one State holding everything the
  controller reads or writes, and one transition function per handler.
  The document is abstracted to sequences indexed by slide ordinal.
 */
module Deck {
  import Decimal

  datatype Option<T> = None | Some(value: T)

  /** A distance bound for the nearest-to-top scan; the scan starts at Infinity. */
  datatype Bound = Finite(v: nat) | Infinity

  predicate Below(x: nat, b: Bound) {
    match b
    case Infinity => true
    case Finite(v) => x < v
  }

  datatype State = State(
    slideCount: nat,            // number of `.slide` elements, fixed at load
    current: int,               // currentSlideIndex
    fullscreen: bool,           // body carries class `fullscreen-mode`
    fragments: seq<seq<bool>>,  // per slide, `.fragment` visibility in source order
    hasNumber: seq<bool>,       // per slide, whether it has a `.slide-number` element
    labels: seq<string>,        // per slide, the text of that element
    active: seq<bool>,          // per slide, class `active`
    scaleApplied: bool,         // `--scale-factor` is set on the body
    scrolls: seq<nat>)          // slides asked to scroll into view, oldest first

  ghost predicate WellFormed(d: State) {
    && d.slideCount > 0
    && |d.fragments| == d.slideCount
    && |d.hasNumber| == d.slideCount
    && |d.labels| == d.slideCount
    && |d.active| == d.slideCount
    && 0 <= d.current < d.slideCount
  }

  // ---------------------------------------------------------------- render

  /** The text a slide's number element shows: nothing on slide 0, else its ordinal plus one. */
  function SlideLabel(k: nat): string {
    if k > 0 then Decimal.Text(k + 1) else ""
  }

  function ActiveFlags(n: nat, cur: int): seq<bool> {
    seq(n, k => k == cur)
  }

  function CountTrue(s: seq<bool>): nat {
    if s == [] then 0 else CountTrue(s[..|s| - 1]) + (if s[|s| - 1] then 1 else 0)
  }

  function RenderLabels(hasNumber: seq<bool>, labels: seq<string>): seq<string>
    requires |hasNumber| == |labels|
  {
    seq(|labels|, k requires 0 <= k < |labels| => if hasNumber[k] then SlideLabel(k) else labels[k])
  }

  /** What updateActiveSlideClass leaves behind: the current slide alone active, every number element labelled. */
  ghost predicate Rendered(d: State) {
    && WellFormed(d)
    && d.active == ActiveFlags(d.slideCount, d.current)
    && forall k :: 0 <= k < d.slideCount && d.hasNumber[k] ==> d.labels[k] == SlideLabel(k)
  }

  function Render(d: State): (r: State)
    requires WellFormed(d)
    ensures WellFormed(r) && r.slideCount == d.slideCount && r.hasNumber == d.hasNumber
    ensures Rendered(r) && r == d.(active := r.active, labels := r.labels)
    ensures forall k :: 0 <= k < d.slideCount && !d.hasNumber[k] ==> r.labels[k] == d.labels[k]
  {
    d.(active := ActiveFlags(d.slideCount, d.current), labels := RenderLabels(d.hasNumber, d.labels))
  }

  // ----------------------------------------------------------- scroll / goto

  function ScrollTo(d: State, i: int): (r: State)
    requires WellFormed(d)
    ensures WellFormed(r) && r.slideCount == d.slideCount && r.hasNumber == d.hasNumber
    ensures i < 0 || i >= d.slideCount ==> r == d
    ensures 0 <= i < d.slideCount ==>
      && r.current == i && Rendered(r)
      && r.fragments == d.fragments && r.fullscreen == d.fullscreen && r.scaleApplied == d.scaleApplied
      && r.scrolls == if d.fullscreen then d.scrolls else d.scrolls + [i]
  {
    if i < 0 || i >= d.slideCount then d
    else
      var r := Render(d.(current := i));
      if r.fullscreen then r else r.(scrolls := r.scrolls + [i])
  }

  // ------------------------------------------------------------- fragments

  /** The first hidden fragment, as `.fragment:not(.visible)`[0] selects it. */
  function FirstHidden(f: seq<bool>): (r: Option<nat>)
    ensures r.Some? ==> r.value < |f| && !f[r.value] && forall j :: 0 <= j < r.value ==> f[j]
    ensures r.None? ==> forall j :: 0 <= j < |f| ==> f[j]
  {
    if f == [] then None
    else if !f[0] then Some(0)
    else match FirstHidden(f[1..])
      case None => None
      case Some(j) => Some(j + 1)
  }

  /** The last visible fragment, as the final element of `.fragment.visible` selects it. */
  function LastVisible(f: seq<bool>): (r: Option<nat>)
    ensures r.Some? ==> r.value < |f| && f[r.value] && forall j :: r.value < j < |f| ==> !f[j]
    ensures r.None? ==> forall j :: 0 <= j < |f| ==> !f[j]
  {
    if f == [] then None
    else if f[|f| - 1] then Some(|f| - 1)
    else LastVisible(f[..|f| - 1])
  }

  /** Visible fragments are exactly a prefix of the slide's fragments. */
  ghost predicate VisiblePrefix(f: seq<bool>) {
    forall i, j :: 0 <= i < j < |f| && f[j] ==> f[i]
  }

  ghost predicate AllPrefix(d: State) {
    forall s :: 0 <= s < |d.fragments| ==> VisiblePrefix(d.fragments[s])
  }

  function Next(d: State): (r: State)
    requires WellFormed(d)
    ensures WellFormed(r) && r.slideCount == d.slideCount && r.hasNumber == d.hasNumber
    ensures FirstHidden(d.fragments[d.current]).Some? ==>
      r.current == d.current && r.active == d.active && r.labels == d.labels && r.scrolls == d.scrolls
    ensures FirstHidden(d.fragments[d.current]).None? ==> r.fragments == d.fragments
  {
    var f := d.fragments[d.current];
    match FirstHidden(f)
    case Some(j) => d.(fragments := d.fragments[d.current := f[j := true]])
    case None => ScrollTo(d, d.current + 1)
  }

  function Prev(d: State): (r: State)
    requires WellFormed(d)
    ensures WellFormed(r) && r.slideCount == d.slideCount && r.hasNumber == d.hasNumber
    ensures LastVisible(d.fragments[d.current]).Some? ==>
      r.current == d.current && r.active == d.active && r.labels == d.labels && r.scrolls == d.scrolls
    ensures LastVisible(d.fragments[d.current]).None? ==> r.fragments == d.fragments
  {
    var f := d.fragments[d.current];
    match LastVisible(f)
    case Some(j) => d.(fragments := d.fragments[d.current := f[j := false]])
    case None => ScrollTo(d, d.current - 1)
  }

  // ------------------------------------------------------ nearest to the top

  /** The slide a left-to-right scan with a strict `<` picks: the lowest index of least distance. */
  function ArgMin(ds: seq<nat>): (k: nat)
    requires |ds| > 0
    ensures k < |ds|
    ensures forall j :: 0 <= j < |ds| ==> ds[k] <= ds[j]
    ensures forall j :: 0 <= j < k ==> ds[k] < ds[j]
  {
    if |ds| == 1 then 0
    else
      var k := ArgMin(ds[..|ds| - 1]);
      if ds[|ds| - 1] < ds[k] then |ds| - 1 else k
  }

  function Resync(d: State, ds: seq<nat>): (r: State)
    requires WellFormed(d) && |ds| == d.slideCount
    ensures WellFormed(r) && r.slideCount == d.slideCount && r.hasNumber == d.hasNumber
    ensures d.fullscreen ==> r == d
    ensures !d.fullscreen ==>
      && Rendered(r) && r.current == ArgMin(ds)
      && r.fragments == d.fragments && r.scaleApplied == d.scaleApplied && r.scrolls == d.scrolls
  {
    if d.fullscreen then d else Render(d.(current := ArgMin(ds)))
  }

  // ----------------------------------------------------------- fullscreen

  function UpdateScale(d: State): (r: State)
    ensures ScaleMatchesMode(r) && r.fullscreen == d.fullscreen && r.current == d.current
    ensures r.fragments == d.fragments && r.active == d.active && r.labels == d.labels
    ensures r.scrolls == d.scrolls && r.slideCount == d.slideCount && r.hasNumber == d.hasNumber
  {
    d.(scaleApplied := d.fullscreen)
  }

  ghost predicate ScaleMatchesMode(d: State) {
    d.scaleApplied == d.fullscreen
  }

  /** The fullscreenchange handler; on exit the re-alignment is a separate, later step (Realign). */
  function FullscreenChange(d: State, nowFullscreen: bool): (r: State)
    requires WellFormed(d)
    ensures WellFormed(r) && r.slideCount == d.slideCount && r.hasNumber == d.hasNumber
    ensures r.fullscreen == nowFullscreen && ScaleMatchesMode(r)
    ensures r.current == d.current && r.fragments == d.fragments && r.scrolls == d.scrolls
    ensures nowFullscreen ==> Rendered(r)
    ensures !nowFullscreen ==> r.active == d.active && r.labels == d.labels
  {
    if nowFullscreen then UpdateScale(Render(d.(fullscreen := true)))
    else UpdateScale(d.(fullscreen := false))
  }

  /** The delayed `scrollToSlide(currentSlideIndex)` after leaving fullscreen. */
  function Realign(d: State): (r: State)
    requires WellFormed(d)
    ensures WellFormed(r) && r.slideCount == d.slideCount && r.hasNumber == d.hasNumber
    ensures r.current == d.current && Rendered(r) && r.fragments == d.fragments
    ensures r.scrolls == if d.fullscreen then d.scrolls else d.scrolls + [d.current as nat]
  {
    ScrollTo(d, d.current)
  }

  datatype Request = NoRequest | RequestEnter | RequestExit

  /** toggleFullScreen asks the browser; it never changes the controller's own state. */
  function ToggleRequest(browserFullscreen: bool, exitAvailable: bool): (r: Request)
    ensures r == RequestEnter <==> !browserFullscreen
    ensures r == RequestExit <==> browserFullscreen && exitAvailable
  {
    if !browserFullscreen then RequestEnter
    else if exitAvailable then RequestExit
    else NoRequest
  }

  // ------------------------------------------------------------- keyboard

  datatype Action = Advance | Retreat | ToggleFullscreen | GoFirst | GoLast

  /** The key groups of the keydown switch. */
  const NextKeys: set<string> := {"ArrowRight", "ArrowDown", " ", "Enter", "PageDown"}
  const PrevKeys: set<string> := {"ArrowLeft", "ArrowUp", "Backspace", "PageUp"}
  const ToggleKeys: set<string> := {"f", "F"}

  /** The keydown switch; None is a key the handler ignores. */
  function KeyAction(key: string): (r: Option<Action>)
    ensures r.Some? <==> key in NextKeys || key in PrevKeys || key in ToggleKeys || key == "Home" || key == "End"
  {
    match key
    case "ArrowRight" | "ArrowDown" | " " | "Enter" | "PageDown" => Some(Advance)
    case "ArrowLeft" | "ArrowUp" | "Backspace" | "PageUp" => Some(Retreat)
    case "f" | "F" => Some(ToggleFullscreen)
    case "Home" => Some(GoFirst)
    case "End" => Some(GoLast)
    case _ => None
  }

  /** The keydown handler: the new state and whether the default action was prevented. */
  function Keydown(d: State, key: string, ds: seq<nat>): (r: (State, bool))
    requires WellFormed(d) && |ds| == d.slideCount
    ensures WellFormed(r.0) && r.0.slideCount == d.slideCount && r.0.hasNumber == d.hasNumber
    ensures r.1 <==> KeyAction(key).Some?
    ensures r.0.fullscreen == d.fullscreen && r.0.scaleApplied == d.scaleApplied
  {
    var d1 := if !d.fullscreen then Resync(d, ds) else d;
    match KeyAction(key)
    case None => (d1, false)
    case Some(Advance) => (Next(d1), true)
    case Some(Retreat) => (Prev(d1), true)
    case Some(ToggleFullscreen) => (d1, true)
    case Some(GoFirst) => (ScrollTo(d1, 0), true)
    case Some(GoLast) => (ScrollTo(d1, d1.slideCount - 1), true)
  }

  function KeyRequest(key: string, browserFullscreen: bool, exitAvailable: bool): (r: Request)
    ensures r != NoRequest ==> key in ToggleKeys
  {
    if KeyAction(key) == Some(ToggleFullscreen) then ToggleRequest(browserFullscreen, exitAvailable)
    else NoRequest
  }

  // --------------------------------------------------------------- events

  /** What DOMContentLoaded does after capturing the slides: updateScale, then resync. */
  function Startup(d: State, ds: seq<nat>): (r: State)
    requires WellFormed(d) && |ds| == d.slideCount
    ensures WellFormed(r) && r.slideCount == d.slideCount && r.hasNumber == d.hasNumber
    ensures ScaleMatchesMode(r) && r.fragments == d.fragments && r.fullscreen == d.fullscreen
    ensures !d.fullscreen ==> Rendered(r) && r.current == ArgMin(ds)
  {
    Resync(UpdateScale(d), ds)
  }

  datatype Event =
    | KeyDown(key: string, distances: seq<nat>)
    | FullscreenChanged(nowFullscreen: bool)
    | RealignTimer
    | Resize

  /** A keydown event supplies one distance per slide. */
  ghost predicate Fits(n: nat, e: Event) {
    e.KeyDown? ==> |e.distances| == n
  }

  /** The listener table: which handler each event runs. */
  function Step(d: State, e: Event): (r: State)
    requires WellFormed(d) && Fits(d.slideCount, e)
    ensures WellFormed(r) && r.slideCount == d.slideCount
  {
    match e
    case KeyDown(key, ds) => Keydown(d, key, ds).0
    case FullscreenChanged(now) => FullscreenChange(d, now)
    case RealignTimer => Realign(d)
    case Resize => UpdateScale(d)
  }

  function Run(d: State, es: seq<Event>): (r: State)
    requires WellFormed(d)
    requires forall e :: e in es ==> Fits(d.slideCount, e)
    ensures WellFormed(r) && r.slideCount == d.slideCount
    decreases |es|
  {
    if es == [] then d
    else
      var d1 := Step(d, es[0]);
      Run(d1, es[1..])
  }

  function NextTimes(d: State, k: nat): (r: State)
    requires WellFormed(d)
    ensures WellFormed(r) && r.slideCount == d.slideCount
  {
    if k == 0 then d else Next(NextTimes(d, k - 1))
  }

  function PrevTimes(d: State, k: nat): (r: State)
    requires WellFormed(d)
    ensures WellFormed(r) && r.slideCount == d.slideCount
  {
    if k == 0 then d else Prev(PrevTimes(d, k - 1))
  }
}
