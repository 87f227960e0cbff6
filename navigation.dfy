/**
  The controller as the page runs it: one object whose fields are updated in
  place by the event handlers. Each method is proved to perform the matching
  transition of the value model in Deck, whose properties DeckFacts proves.
 */
module Navigation {
  import Decimal
  import opened Deck

  /** `querySelectorAll('.fragment:not(.visible)')[0]`: scan the slide's fragments in source order. */
  method FindFirstHidden(f: seq<bool>) returns (r: Option<nat>)
    ensures r.Some? ==> r.value < |f| && !f[r.value] && forall j :: 0 <= j < r.value ==> f[j]
    ensures r.None? ==> forall j :: 0 <= j < |f| ==> f[j]
    ensures r == FirstHidden(f)
  {
    var i := 0;
    while i < |f| && f[i]
      invariant 0 <= i <= |f|
      invariant forall j :: 0 <= j < i ==> f[j]
    {
      i := i + 1;
    }
    r := if i < |f| then Some(i) else None;
  }

  /** The last element of `querySelectorAll('.fragment.visible')`: scan back from the end. */
  method FindLastVisible(f: seq<bool>) returns (r: Option<nat>)
    ensures r.Some? ==> r.value < |f| && f[r.value] && forall j :: r.value < j < |f| ==> !f[j]
    ensures r.None? ==> forall j :: 0 <= j < |f| ==> !f[j]
    ensures r == LastVisible(f)
  {
    var i := |f|;
    while 0 < i && !f[i - 1]
      invariant 0 <= i <= |f|
      invariant forall j :: i <= j < |f| ==> !f[j]
    {
      i := i - 1;
    }
    r := if 0 < i then Some(i - 1) else None;
  }

  class Presentation {
    const slideCount: nat
    const hasNumber: seq<bool>
    var currentSlideIndex: int
    var fullscreen: bool
    var fragments: seq<seq<bool>>
    var labels: seq<string>
    var active: seq<bool>
    var scaleApplied: bool
    var scrolls: seq<nat>

    ghost function Model(): State
      reads this
    {
      State(slideCount, currentSlideIndex, fullscreen, fragments, hasNumber, labels, active, scaleApplied, scrolls)
    }

    ghost predicate Valid()
      reads this
    {
      WellFormed(Model())
    }

    /** The DOMContentLoaded handler: capture the slides, then updateScale and the first resync. */
    constructor (fragments0: seq<seq<bool>>, hasNumber0: seq<bool>, labels0: seq<string>,
                 active0: seq<bool>, fullscreen0: bool, distances: seq<nat>)
      requires |fragments0| > 0
      requires |hasNumber0| == |fragments0| && |labels0| == |fragments0| && |active0| == |fragments0|
      requires |distances| == |fragments0|
      ensures Valid()
      ensures Model() == Startup(
        State(|fragments0|, 0, fullscreen0, fragments0, hasNumber0, labels0, active0, false, []), distances)
    {
      slideCount := |fragments0|;
      hasNumber := hasNumber0;
      currentSlideIndex := 0;
      fullscreen := fullscreen0;
      fragments := fragments0;
      labels := labels0;
      active := active0;
      scaleApplied := false;
      scrolls := [];
      new;
      UpdateScale();
      UpdateCurrentSlideIndex(distances);
    }

    /** updateActiveSlideClass: one pass over the slides setting `active` and the number text. */
    method UpdateActiveSlideClass()
      requires Valid()
      modifies this
      ensures Valid()
      ensures Model() == Render(old(Model()))
    {
      var k := 0;
      while k < slideCount
        invariant 0 <= k <= slideCount
        invariant |active| == slideCount && |labels| == slideCount
        invariant forall j :: 0 <= j < k ==> active[j] == (j == currentSlideIndex)
        invariant forall j :: 0 <= j < k ==>
          labels[j] == if hasNumber[j] then SlideLabel(j) else old(labels[j])
        invariant forall j :: k <= j < slideCount ==> labels[j] == old(labels[j])
        invariant currentSlideIndex == old(currentSlideIndex) && fullscreen == old(fullscreen)
        invariant fragments == old(fragments) && scaleApplied == old(scaleApplied)
        invariant scrolls == old(scrolls)
      {
        active := active[k := k == currentSlideIndex];
        if hasNumber[k] {
          if k > 0 {
            labels := labels[k := Decimal.Text(k + 1)];
          } else {
            labels := labels[k := ""];
          }
        }
        k := k + 1;
      }
      assert active == ActiveFlags(slideCount, currentSlideIndex);
      assert labels == RenderLabels(hasNumber, old(labels));
    }

    /** updateScale, also the resize listener: the scale factor is set exactly in fullscreen mode. */
    method UpdateScale()
      modifies this
      ensures Model() == Deck.UpdateScale(old(Model()))
    {
      scaleApplied := fullscreen;
    }

    /** scrollToSlide: out-of-range targets are ignored. */
    method ScrollToSlide(index: int)
      requires Valid()
      modifies this
      ensures Valid()
      ensures Model() == ScrollTo(old(Model()), index)
    {
      if index < 0 || index >= slideCount {
        return;
      }
      currentSlideIndex := index;
      UpdateActiveSlideClass();
      if !fullscreen {
        scrolls := scrolls + [index];
      }
    }

    method HandleNext()
      requires Valid()
      modifies this
      ensures Valid()
      ensures Model() == Next(old(Model()))
    {
      var f := fragments[currentSlideIndex];
      var hidden := FindFirstHidden(f);
      if hidden.Some? {
        fragments := fragments[currentSlideIndex := f[hidden.value := true]];
      } else {
        ScrollToSlide(currentSlideIndex + 1);
      }
    }

    method HandlePrev()
      requires Valid()
      modifies this
      ensures Valid()
      ensures Model() == Prev(old(Model()))
    {
      var f := fragments[currentSlideIndex];
      var visible := FindLastVisible(f);
      if visible.Some? {
        fragments := fragments[currentSlideIndex := f[visible.value := false]];
      } else {
        ScrollToSlide(currentSlideIndex - 1);
      }
    }

    /** updateCurrentSlideIndex: pick the slide nearest the viewport top; distances[k] is |top of slide k|. */
    method UpdateCurrentSlideIndex(distances: seq<nat>)
      requires Valid() && |distances| == slideCount
      modifies this
      ensures Valid()
      ensures Model() == Resync(old(Model()), distances)
    {
      if fullscreen {
        return;
      }
      var minDistance := Infinity;
      var k := 0;
      while k < slideCount
        invariant 0 <= k <= slideCount
        invariant 0 <= currentSlideIndex < slideCount
        invariant k == 0 ==> minDistance == Infinity && currentSlideIndex == old(currentSlideIndex)
        invariant k > 0 ==>
          currentSlideIndex == ArgMin(distances[..k]) && minDistance == Finite(distances[currentSlideIndex])
        invariant Model() == old(Model()).(current := currentSlideIndex)
      {
        assert distances[..k + 1][..k] == distances[..k];
        if Below(distances[k], minDistance) {
          minDistance := Finite(distances[k]);
          currentSlideIndex := k;
        }
        k := k + 1;
      }
      assert distances[..slideCount] == distances;
      UpdateActiveSlideClass();
    }

    /** The keydown listener; `handled` says whether the default action was prevented. */
    method HandleKeydown(key: string, distances: seq<nat>, browserFullscreen: bool, exitAvailable: bool)
      returns (handled: bool, request: Request)
      requires Valid() && |distances| == slideCount
      modifies this
      ensures Valid()
      ensures (Model(), handled) == Keydown(old(Model()), key, distances)
      ensures request == KeyRequest(key, browserFullscreen, exitAvailable)
    {
      if !fullscreen {
        UpdateCurrentSlideIndex(distances);
      }
      request := NoRequest;
      match KeyAction(key)
      case None =>
        handled := false;
      case Some(Advance) =>
        handled := true;
        HandleNext();
      case Some(Retreat) =>
        handled := true;
        HandlePrev();
      case Some(ToggleFullscreen) =>
        handled := true;
        request := ToggleFullScreen(browserFullscreen, exitAvailable);
      case Some(GoFirst) =>
        handled := true;
        ScrollToSlide(0);
      case Some(GoLast) =>
        handled := true;
        ScrollToSlide(slideCount - 1);
    }

    /**
      toggleFullScreen: ask the browser to enter when it shows no fullscreen element,
      otherwise to exit when it offers exitFullscreen. The mode flag is left alone.
     */
    method ToggleFullScreen(browserFullscreen: bool, exitAvailable: bool) returns (request: Request)
      ensures request == ToggleRequest(browserFullscreen, exitAvailable)
      ensures request == RequestEnter <==> !browserFullscreen
      ensures request == RequestExit <==> browserFullscreen && exitAvailable
    {
      if !browserFullscreen {
        request := RequestEnter;
      } else if exitAvailable {
        request := RequestExit;
      } else {
        request := NoRequest;
      }
    }

    /** The fullscreenchange listener; `realign` says a delayed RealignAfterExit was scheduled. */
    method OnFullscreenChange(nowFullscreen: bool) returns (realign: bool)
      requires Valid()
      modifies this
      ensures Valid()
      ensures Model() == FullscreenChange(old(Model()), nowFullscreen)
      ensures realign == !nowFullscreen
    {
      if nowFullscreen {
        fullscreen := true;
        UpdateActiveSlideClass();
      } else {
        fullscreen := false;
      }
      realign := !nowFullscreen;
      UpdateScale();
    }

    /** The timer callback scheduled on leaving fullscreen. */
    method RealignAfterExit()
      requires Valid()
      modifies this
      ensures Valid()
      ensures Model() == Realign(old(Model()))
    {
      ScrollToSlide(currentSlideIndex);
    }
  }
}
