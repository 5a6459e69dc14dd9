/** The show-case hero (`src/app/show-case/hero.tsx`): a canvas that plays
    100 frames as the page scrolls. On mounting it draws the loading screen's
    first frame, then takes the loading screen's frames if they are ready and
    complete in number, and otherwise loads all 100 frames itself. When the
    frames are not ready at mount it polls for them and gives up waiting
    after a timeout. `render` draws the frame under the scroll position,
    scaled to cover a 1920x1080 canvas, when that image has decoded.

    The `window` globals the loading screens publish are read as a
    `Window` value handed to each event. `imageSeq`, declared with `const`
    after the code that may first read it, is an optional value that is
    `None` until its declaration has run. */
module ShowcaseHero {
  import opened JsString
  import opened Frames

  const FrameCount: nat := 100
  const CanvasWidth: real := 1920.0
  const CanvasHeight: real := 1080.0
  /** Highest frame index the warm-up loop pre-renders: `Math.min(3, frameCount - 1)`. */
  const WarmUpFrames: nat := 3

  /** `window.framesReady`, `window.preloadedFrames` and `window.firstFrame`
      as one event finds them. */
  datatype Window = Window(framesReady: bool, preloadedFrames: Option<seq<Img>>, firstFrame: Option<Img>)

  /** The test of `checkForPreloadedFrames`: the loading screen's frames are
      used only when they are ready and at least 100. */
  predicate UsePreloaded(win: Window) {
    win.preloadedFrames.Some? && win.framesReady && |win.preloadedFrames.value| >= FrameCount
  }

  /** Where a `drawImage` call puts an image on the canvas. */
  datatype Placement = Placement(x: real, y: real, width: real, height: real)

  /** One `drawImage` call: which frame file, and where. */
  datatype Drawn = Drawn(frame: nat, at: Placement)

  function Max(a: real, b: real): real {
    if a >= b then a else b
  }

  /** The arithmetic of `render`: scale by the larger of the two ratios and
      centre the result. */
  function CoverFit(cw: real, ch: real, w: real, h: real): Placement
    requires w > 0.0 && h > 0.0
  {
    var ratio := Max(cw / w, ch / h);
    Placement((cw - w * ratio) / 2.0, (ch - h * ratio) / 2.0, w * ratio, h * ratio)
  }

  /** Cover fit fills the canvas: the scaled image is at least as large as
      the canvas on both axes and exactly as large on one, it keeps the
      image's aspect ratio, and it is centred, so both offsets are at most
      zero. */
  lemma CoverFitCovers(cw: real, ch: real, w: real, h: real)
    requires cw > 0.0 && ch > 0.0 && w > 0.0 && h > 0.0
    ensures var p := CoverFit(cw, ch, w, h);
      && p.width >= cw && p.height >= ch
      && (p.width == cw || p.height == ch)
      && p.width * h == p.height * w
      && p.x <= 0.0 && p.y <= 0.0
      && p.x + p.width / 2.0 == cw / 2.0 && p.y + p.height / 2.0 == ch / 2.0
  {
    var hr, vr := cw / w, ch / h;
    assert w * hr == cw;
    assert h * vr == ch;
    var ratio := Max(hr, vr);
    if hr >= vr {
      assert h * ratio >= h * vr;
    } else {
      assert w * ratio >= w * hr;
    }
  }

  /** No smaller scale covers the canvas: any factor `r` that covers both
      axes scales the width at least as much as cover fit does. */
  lemma CoverFitIsSmallest(cw: real, ch: real, w: real, h: real, r: real)
    requires w > 0.0 && h > 0.0
    requires w * r >= cw && h * r >= ch
    ensures w * r >= CoverFit(cw, ch, w, h).width
  {
    var hr, vr := cw / w, ch / h;
    assert w * hr == cw;
    assert h * vr == ch;
    if hr < vr {
      assert r >= vr;
    }
  }

  /** What `render` draws when `imageSeq.frame` floors to `index`: the image
      there covering the canvas, if it exists, is complete and has a
      positive natural height; nothing otherwise. */
  function DrawAt(images: seq<Img>, index: int): (d: seq<Drawn>)
    ensures |d| <= 1
  {
    if 0 <= index < |images| && Drawable(images[index]) then
      var img := images[index];
      [Drawn(img.frame, CoverFit(CanvasWidth, CanvasHeight, img.state.width as real, img.state.height as real))]
    else []
  }

  /** `render` draws exactly when the image under the frame index has
      decoded, and then covers the whole canvas with it. */
  lemma DrawAtCovers(images: seq<Img>, index: int)
    ensures DrawAt(images, index) != [] <==> 0 <= index < |images| && Drawable(images[index])
    ensures DrawAt(images, index) != [] ==>
      var p := DrawAt(images, index)[0].at;
      && DrawAt(images, index)[0].frame == images[index].frame
      && p.width >= CanvasWidth && p.height >= CanvasHeight && p.x <= 0.0 && p.y <= 0.0
  {
    if 0 <= index < |images| && Drawable(images[index]) {
      var img := images[index];
      CoverFitCovers(CanvasWidth, CanvasHeight, img.state.width as real, img.state.height as real);
    }
  }

  /** The draws of the warm-up loop for indices `1 .. n - 1`. */
  function WarmDraws(images: seq<Img>, n: nat): seq<Drawn> {
    if n <= 1 then [] else WarmDraws(images, n - 1) + DrawAt(images, n - 1)
  }

  /** One run of the fallback loader: its 100 image elements and the
      closure's two counters. */
  datatype Session = Session(requests: seq<Img>, loaded: nat, failed: nat)

  /** `images.push(img)` for `i = 1 .. 100`: element `k` is frame `k + 1`. */
  predicate InFrameOrder(requests: seq<Img>) {
    |requests| == FrameCount && forall j :: 0 <= j < FrameCount ==> requests[j].frame == j + 1
  }

  /** Every completion is counted once, and the failures are the completed
      images that did not decode. */
  predicate SessionOk(s: Session) {
    && InFrameOrder(s.requests)
    && s.loaded == CountComplete(s.requests)
    && s.failed + CountDrawable(s.requests) == s.loaded
  }

  /** After 100 completions there were no failures exactly when every frame
      decoded: the scroll binding is set up only over a full set of frames. */
  lemma NoFailuresIffAllDecoded(s: Session)
    requires SessionOk(s) && s.loaded == FrameCount
    ensures s.failed == 0 <==> forall j :: 0 <= j < FrameCount ==> Drawable(s.requests[j])
  {
    CountDrawableAll(s.requests);
  }

  /** All 100 requests have completed exactly when the count reaches 100. */
  lemma LoadedIffAllComplete(s: Session)
    requires SessionOk(s)
    ensures s.loaded <= FrameCount
    ensures s.loaded == FrameCount <==> forall j :: 0 <= j < FrameCount ==> Complete(s.requests[j])
  {
    CountCompleteAll(s.requests);
  }

  /** In a fallback session the image under scroll position `k` is frame
      `k + 1`, so a draw at `k` shows the file `FramePath(k + 1)`. */
  lemma FallbackDrawsFrameInOrder(s: Session, k: nat)
    requires SessionOk(s) && k < FrameCount
    ensures DrawAt(s.requests, k) != [] ==> DrawAt(s.requests, k)[0].frame == k + 1
  {
  }

  /** One completion in a session: request `k` settles with `st` and
      `onImageLoad` counts it, as a failure too when it is an `error`. */
  function Completed(s: Session, k: nat, st: ImgState): (r: Session)
    requires SessionOk(s) && k < FrameCount && s.requests[k].state == Pending && st != Pending
    ensures SessionOk(r)
    ensures r.requests == s.requests[k := Img(k + 1, st)]
    ensures r.loaded == s.loaded + 1
    ensures r.failed == s.failed + (if st.Broken? then 1 else 0)
  {
    CountsFinish(s.requests, k, st);
    Session(s.requests[k := s.requests[k].(state := st)], s.loaded + 1, s.failed + (if st.Broken? then 1 else 0))
  }

  function Flag(b: bool): nat {
    if b then 1 else 0
  }

  class Hero {
    /** `const imageSeq = { frame: 0 }`; `None` before line 124 has run. */
    var imageSeq: Option<real>
    /** The effect's `images` variable. */
    var images: seq<Img>
    /** The fallback runs started so far, oldest first. */
    var sessions: seq<Session>
    /** The session whose array `images` holds, if it holds one. */
    var current: Option<nat>
    var progress: nat
    /** The `setInterval` poller is live. */
    var intervalActive: bool
    /** The `setTimeout` callback has not fired. */
    var timeoutPending: bool
    /** Calls of `checkForPreloadedFrames`. */
    var checks: nat
    /** Live scroll bindings made by `setupScrollTrigger`. */
    var bindings: nat
    /** The canvas `drawImage` calls, in order. */
    var draws: seq<Drawn>
    /** `render` read `imageSeq` before its declaration: a `ReferenceError`
        aborted the effect. */
    var crashed: bool
    /** The effect's cleanup has run. */
    var unmounted: bool

    ghost predicate Valid()
      reads this`sessions, this`current, this`images, this`intervalActive, this`timeoutPending
      reads this`checks, this`crashed, this`imageSeq
    {
      && (forall s :: 0 <= s < |sessions| ==> SessionOk(sessions[s]))
      && (current.Some? ==> current.value < |sessions| && images == sessions[current.value].requests)
      && (intervalActive ==> timeoutPending)
      && checks + Flag(intervalActive) + Flag(timeoutPending) <= 2
      && |sessions| <= checks
      && (crashed ==> imageSeq.None?)
    }

    /** The effect ran to completion; the events below can fire. */
    ghost predicate Mounted()
      reads this
    {
      Valid() && !crashed && imageSeq.Some?
    }

    /** The effect as written: `imageSeq` is declared after the readiness
        check, so when the frames are ready at mount the preloaded path
        renders in the temporal dead zone and the effect aborts. */
    constructor Mount(win: Window)
      ensures Valid()
      ensures crashed <==> UsePreloaded(win)
      ensures crashed ==> bindings == 0 && images == win.preloadedFrames.value
      ensures !crashed ==> Mounted() && imageSeq == Some(0.0) && bindings == 0
      ensures intervalActive == timeoutPending == !win.framesReady
      ensures checks == Flag(win.framesReady)
      ensures win.framesReady && !UsePreloaded(win) ==>
        |sessions| == 1 && current == Some(0) && sessions[0].loaded == 0 && SessionOk(sessions[0])
      ensures draws == FirstFrameDraw(win)
    {
      imageSeq := None;
      images := [];
      sessions := [];
      current := None;
      progress := 0;
      intervalActive := false;
      timeoutPending := false;
      checks := 0;
      bindings := 0;
      draws := FirstFrameDraw(win);
      crashed := false;
      unmounted := false;
      new;
      if win.framesReady {
        Check(win);
        if crashed {
          return;
        }
      } else {
        intervalActive := true;
        timeoutPending := true;
      }
      imageSeq := Some(0.0);
    }

    /** The effect with `imageSeq` declared before the readiness check: frames
        that are ready at mount are drawn and bound at once. */
    constructor MountCorrected(win: Window)
      ensures Mounted()
      ensures intervalActive == timeoutPending == !win.framesReady
      ensures checks == Flag(win.framesReady)
      ensures imageSeq == Some(0.0)
      ensures UsePreloaded(win) ==>
        && bindings == 1 && images == win.preloadedFrames.value
        && draws == FirstFrameDraw(win) + DrawAt(images, 0) + WarmDraws(images, WarmUpFrames + 1) + DrawAt(images, 0)
      ensures !UsePreloaded(win) ==> bindings == 0 && draws == FirstFrameDraw(win)
    {
      imageSeq := Some(0.0);
      images := [];
      sessions := [];
      current := None;
      progress := 0;
      intervalActive := false;
      timeoutPending := false;
      checks := 0;
      bindings := 0;
      draws := FirstFrameDraw(win);
      crashed := false;
      unmounted := false;
      new;
      if win.framesReady {
        Check(win);
      } else {
        intervalActive := true;
        timeoutPending := true;
      }
    }

    /** `render`. */
    method Render()
      requires Valid() && !crashed
      modifies this`draws, this`crashed
      ensures Valid()
      ensures imageSeq.None? ==> crashed && draws == old(draws)
      ensures imageSeq.Some? ==> !crashed && draws == old(draws) + DrawAt(images, imageSeq.value.Floor)
    {
      if imageSeq.None? {
        crashed := true;
      } else {
        draws := draws + DrawAt(images, imageSeq.value.Floor);
      }
    }

    /** The warm-up of the preloaded path: frames 1 to 3 are rendered with
        `imageSeq.frame` saved and restored around each, then the frame is
        reset to 0 and rendered once more. */
    method WarmUp()
      requires Mounted() && |images| >= FrameCount
      modifies this`imageSeq, this`draws, this`crashed
      ensures Mounted()
      ensures imageSeq == Some(0.0)
      ensures draws == old(draws) + WarmDraws(images, WarmUpFrames + 1) + DrawAt(images, 0)
    {
      var i := 1;
      while i <= WarmUpFrames
        invariant 1 <= i <= WarmUpFrames + 1
        invariant Mounted() && imageSeq == old(imageSeq)
        invariant draws == old(draws) + WarmDraws(images, i)
      {
        assert WarmDraws(images, i + 1) == WarmDraws(images, i) + DrawAt(images, i);
        if Complete(images[i]) {
          var temp := imageSeq.value;
          imageSeq := Some(i as real);
          assert (i as real).Floor == i;
          Render();
          imageSeq := Some(temp);
        } else {
          assert DrawAt(images, i) == [];
        }
        i := i + 1;
      }
      imageSeq := Some(0.0);
      Render();
    }

    /** Starts a fallback run: a fresh session of 100 pending requests in
        frame order, which `images` now holds. */
    method StartFallback()
      requires Valid() && |sessions| < checks
      modifies this`sessions, this`current, this`images
      ensures Valid()
      ensures sessions == old(sessions) + [Session(images, 0, 0)]
      ensures current == Some(|old(sessions)|)
      ensures forall j :: 0 <= j < FrameCount ==> images[j] == Img(j + 1, Pending)
      ensures |images| == FrameCount
    {
      var reqs := PendingRequests(FrameCount);
      sessions := sessions + [Session(reqs, 0, 0)];
      current := Some(|sessions| - 1);
      images := reqs;
    }

    /** `checkForPreloadedFrames`. */
    method Check(win: Window)
      requires Valid() && !crashed
      requires checks + Flag(intervalActive) + Flag(timeoutPending) <= 1
      modifies this`images, this`current, this`sessions, this`checks
      modifies this`draws, this`crashed, this`imageSeq, this`bindings
      ensures Valid()
      ensures checks == old(checks) + 1
      ensures UsePreloaded(win) ==>
        && images == win.preloadedFrames.value && current.None? && sessions == old(sessions)
        && (old(imageSeq).None? ==> crashed && draws == old(draws) && bindings == old(bindings))
        && (old(imageSeq).Some? ==>
              && !crashed && imageSeq == Some(0.0) && bindings == old(bindings) + 1
              && draws == old(draws) + DrawAt(images, old(imageSeq).value.Floor)
                            + WarmDraws(images, WarmUpFrames + 1) + DrawAt(images, 0))
      ensures !UsePreloaded(win) ==>
        && !crashed && imageSeq == old(imageSeq) && draws == old(draws) && bindings == old(bindings)
        && |sessions| == |old(sessions)| + 1 && sessions[..|old(sessions)|] == old(sessions)
        && current == Some(|old(sessions)|) && sessions[|old(sessions)|] == Session(images, 0, 0)
        && forall j :: 0 <= j < FrameCount ==> images[j] == Img(j + 1, Pending)
    {
      checks := checks + 1;
      if UsePreloaded(win) {
        images := win.preloadedFrames.value;
        current := None;
        Render();
        if crashed {
          return;
        }
        WarmUp();
        bindings := bindings + 1;
      } else {
        StartFallback();
        assert sessions[..|old(sessions)|] == old(sessions);
      }
    }

    /** The poller's tick: once `framesReady` is seen it stops itself and checks. */
    method IntervalTick(win: Window)
      requires Mounted() && intervalActive
      modifies this`intervalActive, this`images, this`current, this`sessions, this`checks
      modifies this`draws, this`crashed, this`imageSeq, this`bindings
      ensures Mounted() && timeoutPending
      ensures !win.framesReady ==> intervalActive && checks == old(checks) && bindings == old(bindings)
      ensures win.framesReady ==> !intervalActive && checks == old(checks) + 1
      ensures UsePreloaded(win) ==> bindings == old(bindings) + 1 && images == win.preloadedFrames.value
    {
      if win.framesReady {
        intervalActive := false;
        Check(win);
      }
    }

    /** The timeout: it stops the poller and checks, whether or not the
        poller has already checked. */
    method TimeoutFires(win: Window)
      requires Mounted() && timeoutPending
      modifies this`intervalActive, this`timeoutPending, this`images, this`current, this`sessions
      modifies this`checks, this`draws, this`crashed, this`imageSeq, this`bindings
      ensures Mounted() && !intervalActive && !timeoutPending
      ensures checks == old(checks) + 1
      ensures UsePreloaded(win) ==> bindings == old(bindings) + 1 && images == win.preloadedFrames.value
      ensures !UsePreloaded(win) ==> bindings == old(bindings) && |sessions| == |old(sessions)| + 1
    {
      intervalActive := false;
      timeoutPending := false;
      Check(win);
    }

    /** Request `k` of fallback session `s` settles (`st` is `Broken` for an
        `error` event) and `onImageLoad` runs: it counts the completion and,
        at the 100th, renders and binds the scroll animation unless a
        request failed. */
    method OnImageLoad(s: nat, k: nat, st: ImgState)
      requires Mounted() && s < |sessions| && k < FrameCount
      requires sessions[s].requests[k].state == Pending && st != Pending
      modifies this`sessions, this`images, this`progress, this`draws, this`crashed, this`bindings
      ensures Mounted()
      ensures sessions == old(sessions)[s := Completed(old(sessions[s]), k, st)]
      ensures progress == sessions[s].loaded
      ensures images == (if current == Some(s) then sessions[s].requests else old(images))
      ensures var binds := sessions[s].loaded == FrameCount && sessions[s].failed == 0;
        && bindings == old(bindings) + Flag(binds)
        && draws == old(draws) + (if binds then DrawAt(images, imageSeq.value.Floor) else [])
    {
      Count(s, k, st);
      var next := sessions[s];
      if next.loaded == FrameCount && next.failed == 0 {
        Render();
        bindings := bindings + 1;
      }
    }

    /** The counting half of `onImageLoad`, with the settled request. */
    method Count(s: nat, k: nat, st: ImgState)
      requires Mounted() && s < |sessions| && k < FrameCount
      requires sessions[s].requests[k].state == Pending && st != Pending
      modifies this`sessions, this`images, this`progress
      ensures Mounted()
      ensures sessions == old(sessions)[s := Completed(old(sessions[s]), k, st)]
      ensures progress == sessions[s].loaded
      ensures images == (if current == Some(s) then sessions[s].requests else old(images))
    {
      var next := Completed(sessions[s], k, st);
      var all := sessions[s := next];
      assert forall t :: 0 <= t < |all| ==> SessionOk(all[t]);
      sessions := all;
      if current == Some(s) {
        images := next.requests;
      }
      PercentOfHundred(next.loaded);
      progress := Percent(next.loaded, FrameCount);
    }

    /** A scroll update of a bound animation: the tween sets `imageSeq.frame`
        to a whole frame index (it snaps to `frame`) and renders. */
    method OnScrollUpdate(frame: nat)
      requires Mounted() && bindings > 0 && frame < FrameCount
      modifies this`imageSeq, this`draws, this`crashed
      ensures Mounted() && imageSeq == Some(frame as real)
      ensures draws == old(draws) + DrawAt(images, frame)
    {
      imageSeq := Some(frame as real);
      Render();
    }

    /** The effect's cleanup kills the scroll bindings; it clears neither the
        poller, the timeout nor the image handlers. */
    method Cleanup()
      modifies this`bindings, this`unmounted
      ensures bindings == 0 && unmounted
    {
      bindings := 0;
      unmounted := true;
    }
  }

  /** Lines 27-32: the loading screen's first frame, stretched over the
      canvas, if it has completed. */
  function FirstFrameDraw(win: Window): seq<Drawn> {
    if win.firstFrame.Some? && Complete(win.firstFrame.value) then
      [Drawn(win.firstFrame.value.frame, Placement(0.0, 0.0, CanvasWidth, CanvasHeight))]
    else []
  }

  /** Frames that are ready and complete when the hero mounts abort the
      effect: nothing is bound, and with no first frame in the window
      nothing is drawn. */
  method PreloadedMountCrashes(frames: seq<Img>) returns (crashed: bool, bindings: nat, drawn: nat)
    requires |frames| >= FrameCount
    ensures crashed && bindings == 0 && drawn == 0
  {
    var h := new Hero.Mount(Window(true, Some(frames), None));
    crashed, bindings, drawn := h.crashed, h.bindings, |h.draws|;
  }

  /** With `imageSeq` declared first, the same mount binds once and leaves
      the animation at frame 0. */
  method CorrectedMountBinds(frames: seq<Img>) returns (crashed: bool, bindings: nat, frame: real)
    requires |frames| >= FrameCount
    ensures !crashed && bindings == 1 && frame == 0.0
  {
    var h := new Hero.MountCorrected(Window(true, Some(frames), None));
    crashed, bindings, frame := h.crashed, h.bindings, h.imageSeq.value;
  }

  /** Frames that become ready before the timeout are checked twice, by the
      poller and again by the timeout it never cancels, and the scroll
      animation is bound twice. */
  method ReadyBeforeTimeoutBindsTwice(frames: seq<Img>) returns (checks: nat, bindings: nat)
    requires |frames| >= FrameCount
    ensures checks == 2 && bindings == 2
  {
    var h := new Hero.Mount(Window(false, None, None));
    var ready := Window(true, Some(frames), None);
    h.IntervalTick(ready);
    h.TimeoutFires(ready);
    checks, bindings := h.checks, h.bindings;
  }

  /** A timeout still pending at unmount runs the check afterwards and binds
      the animation of an unmounted hero. */
  method TimeoutAfterUnmountBinds(frames: seq<Img>) returns (unmounted: bool, bindings: nat)
    requires |frames| >= FrameCount
    ensures unmounted && bindings == 1
  {
    var h := new Hero.Mount(Window(false, None, None));
    h.Cleanup();
    h.TimeoutFires(Window(true, Some(frames), None));
    unmounted, bindings := h.unmounted, h.bindings;
  }

  /** Checks are at most two: one at mount when ready, else one from the
      poller and one from the timeout. */
  lemma AtMostTwoChecks(h: Hero)
    requires h.Valid()
    ensures h.checks <= 2
    ensures h.timeoutPending ==> h.checks <= 1
  {
  }
}
