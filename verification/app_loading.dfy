/** The site-wide loading screen (`src/app/loading.tsx`). After the first
    animation frame it requests frames 1..100 in batches of ten, counts the
    completions, shows a rounded percentage with a status line, and once
    `loaded + failed` reaches 100 checks whether at least 80 of the requested
    images decoded. If so it publishes the image array and a ready flag for
    the hero and, after a minimum time of three seconds, sets `isComplete`
    once a first frame is known, which swaps the progress view for a
    "Finalizing experience..." spinner; otherwise it starts the whole
    preload again a second later, without resetting anything.

    Callbacks (the animation frame, idle callbacks, timers, image events) are
    methods the environment may call in any order their preconditions allow;
    the clock enters as the `elapsed` argument of the image events. */
module AppLoading {
  import opened JsString
  import opened Frames

  const TotalFrames: nat := 100
  const BatchSize: nat := 10
  const MinLoadingTime: nat := 3000
  /** `totalFrames * 0.8`, which is exactly 80 in IEEE doubles too. */
  const ReadyThreshold: nat := 80

  function Min(a: nat, b: nat): nat {
    if a <= b then a else b
  }

  /** The frames `lo`, `lo + 1`, ..., `hi - 1`. */
  function Range(lo: nat, hi: nat): (r: seq<nat>)
    ensures |r| == if lo <= hi then hi - lo else 0
    ensures forall j :: 0 <= j < |r| ==> r[j] == lo + j
    decreases hi - lo
  {
    if lo >= hi then [] else [lo] + Range(lo + 1, hi)
  }

  /** Frames 1..100, each once, in ascending order. */
  function AllFrames(): seq<nat> {
    Range(1, TotalFrames + 1)
  }

  /** The frames one `loadBatch` call requests when `current` is `c`. */
  function Batch(c: nat): seq<nat> {
    Range(c, Min(c + BatchSize, TotalFrames + 1))
  }

  /** The frames requested by `loadBatch` from `current = c` on, counting
      the calls it schedules for itself. */
  function BatchesFrom(c: nat): seq<nat>
    decreases TotalFrames + 1 - c
  {
    if c > TotalFrames then [] else Batch(c) + BatchesFrom(c + BatchSize)
  }

  lemma RangeSplit(lo: nat, mid: nat, hi: nat)
    requires lo <= mid <= hi
    ensures Range(lo, mid) + Range(mid, hi) == Range(lo, hi)
  {
  }

  /** The batches from `c` on request every frame from `c` to 100 exactly
      once, in ascending order, at most ten at a time. */
  lemma {:induction false} BatchesFromCoverRange(c: nat)
    ensures BatchesFrom(c) == Range(c, TotalFrames + 1)
    ensures |Batch(c)| <= BatchSize
    decreases TotalFrames + 1 - c
  {
    if c <= TotalFrames {
      BatchesFromCoverRange(c + BatchSize);
      var mid := Min(c + BatchSize, TotalFrames + 1);
      RangeSplit(c, mid, TotalFrames + 1);
    }
  }

  /** One preload pass requests frames 1..100, each once, in ascending order. */
  lemma OnePassRequestsAllFrames()
    ensures BatchesFrom(1) == AllFrames()
    ensures |AllFrames()| == TotalFrames
    ensures forall j :: 0 <= j < TotalFrames ==> AllFrames()[j] == j + 1
  {
    BatchesFromCoverRange(1);
  }

  /** Fresh image elements for the given frames. */
  function Requests(frames: seq<nat>): (imgs: seq<Img>)
    ensures |imgs| == |frames|
    ensures forall j :: 0 <= j < |frames| ==> imgs[j] == Img(frames[j], Pending)
  {
    seq(|frames|, j requires 0 <= j < |frames| => Img(frames[j], Pending))
  }

  /** An image event: `onload` or `onerror` of the image at an index of `images`. */
  datatype Completion = Loaded(index: nat) | Failed(index: nat)

  /** The number of `onerror` events. */
  function Failures(h: seq<Completion>): (n: nat)
    ensures n <= |h|
  {
    if h == [] then 0 else Failures(h[..|h| - 1]) + (if h[|h| - 1].Failed? then 1 else 0)
  }

  /** `loadedCount + failedCount >= totalFrames` once the events `h` have happened. */
  predicate FinishFires(h: seq<Completion>) {
    |h| + Failures(h) >= TotalFrames
  }

  lemma FailuresSnoc(h: seq<Completion>, c: Completion)
    ensures Failures(h + [c]) == Failures(h) + (if c.Failed? then 1 else 0)
  {
    assert (h + [c])[..|h|] == h;
  }

  /** Once `finishLoading` fires it fires again on every later event; it
      never fires before half the frames have completed, and always fires
      once all of them have. */
  lemma FinishFiresBounds(h: seq<Completion>, c: Completion)
    ensures FinishFires(h) ==> FinishFires(h + [c])
    ensures FinishFires(h) ==> |h| >= TotalFrames / 2
    ensures |h| >= TotalFrames ==> FinishFires(h)
  {
    FailuresSnoc(h, c);
  }

  /** One settled image keeps the image counts in step with the events:
      the completed count and the decoded-plus-failed count both grow by
      one, and the decoded count never shrinks. */
  lemma SettleCounts(images: seq<Img>, h: seq<Completion>, k: nat, st: ImgState, c: Completion)
    requires k < |images| && images[k].state == Pending && st != Pending
    requires c == if st.Decoded? then Loaded(k) else Failed(k)
    requires CountComplete(images) == |h| && CountDrawable(images) + Failures(h) == |h|
    ensures var imgs := images[k := images[k].(state := st)];
      && CountComplete(imgs) == |h| + 1
      && CountDrawable(imgs) + Failures(h + [c]) == |h| + 1
      && CountDrawable(imgs) >= CountDrawable(images)
      && Failures(h + [c]) == Failures(h) + (if st.Decoded? then 0 else 1)
      && (|h| > 0 ==> (h + [c])[0] == h[0])
  {
    CountsFinish(images, k, st);
    FailuresSnoc(h, c);
  }

  lemma {:induction false} AllFailedCount(h: seq<Completion>)
    requires forall j :: 0 <= j < |h| ==> h[j].Failed?
    ensures Failures(h) == |h|
  {
    if h != [] {
      AllFailedCount(h[..|h| - 1]);
    }
  }

  /** Errors count twice: when the first 50 events are all errors,
      `finishLoading` already fires although 50 frames are still loading. */
  lemma FinishFiresAtFiftyErrors(h: seq<Completion>)
    requires |h| == TotalFrames / 2
    requires forall j :: 0 <= j < |h| ==> h[j].Failed?
    ensures FinishFires(h)
    ensures forall j :: 0 <= j < |h| ==> !FinishFires(h[..j])
  {
    AllFailedCount(h);
    forall j | 0 <= j < |h| ensures !FinishFires(h[..j]) {
      assert Failures(h[..j]) <= j;
    }
  }

  /** The status lines the screen shows, in the order they appear. */
  datatype StatusLine =
    | Initializing | LoadingFrames | PreparingCanvas | Optimizing | Finalizing | AlmostReady | ReadyToExplore

  function Text(line: StatusLine): string {
    match line
    case Initializing => "Initializing..."
    case LoadingFrames => "Loading cinematic frames..."
    case PreparingCanvas => "Preparing canvas..."
    case Optimizing => "Optimizing performance..."
    case Finalizing => "Finalizing experience..."
    case AlmostReady => "Almost ready..."
    case ReadyToExplore => "Ready to explore!"
  }

  /** `updateText` */
  function UpdateText(p: nat): StatusLine {
    if p < 20 then LoadingFrames
    else if p < 40 then PreparingCanvas
    else if p < 60 then Optimizing
    else if p < 80 then Finalizing
    else if p < 100 then AlmostReady
    else ReadyToExplore
  }

  const Stages: seq<StatusLine> :=
    [LoadingFrames, PreparingCanvas, Optimizing, Finalizing, AlmostReady, ReadyToExplore]

  /** The status line advances one stage per completed fifth of the
      progress, staying on the last from 100 on (also past 100, which a
      retry makes possible); it announces readiness exactly from 100 on. */
  lemma UpdateTextSteps(p: nat)
    ensures UpdateText(p) == Stages[Min(p / 20, 5)]
    ensures UpdateText(p) == ReadyToExplore <==> p >= 100
  {
    var s := Min(p / 20, 5);
    if p < 20 { assert s == 0; }
    else if p < 40 { assert s == 1; }
    else if p < 60 { assert s == 2; }
    else if p < 80 { assert s == 3; }
    else if p < 100 { assert s == 4; }
    else { assert s == 5; }
  }

  /** The stage never goes back as the progress grows. */
  lemma UpdateTextMonotone(p: nat, q: nat)
    requires p <= q
    ensures StageIndex(UpdateText(p)) <= StageIndex(UpdateText(q))
  {
    UpdateTextSteps(p);
    UpdateTextSteps(q);
    assert Min(p / 20, 5) <= Min(q / 20, 5);
  }

  function StageIndex(line: StatusLine): (k: nat)
    ensures line != Initializing ==> k < |Stages| && Stages[k] == line
  {
    match line
    case Initializing => 0
    case LoadingFrames => 0
    case PreparingCanvas => 1
    case Optimizing => 2
    case Finalizing => 3
    case AlmostReady => 4
    case ReadyToExplore => 5
  }

  /** `Math.max(0, minLoadingTime - elapsed)` */
  function WaitTime(elapsed: nat): nat {
    if elapsed >= MinLoadingTime then 0 else MinLoadingTime - elapsed
  }

  /** `isComplete` is never set before three seconds have passed, and
      no wait is added after that. */
  lemma WaitTimeKeepsMinimum(elapsed: nat)
    ensures elapsed + WaitTime(elapsed) >= MinLoadingTime
    ensures WaitTime(elapsed) == 0 <==> elapsed >= MinLoadingTime
    ensures WaitTime(elapsed) <= MinLoadingTime
  {
  }

  /** The `for` loop of `loadBatch`: pushes a fresh image for each frame
      from `c` while fewer than ten have been pushed and the frame is at
      most 100. */
  method PushBatch(images: seq<Img>, c: nat) returns (pushed: seq<Img>)
    requires c <= TotalFrames
    ensures pushed == images + Requests(Batch(c))
  {
    pushed := images;
    var i := c;
    while i < c + BatchSize && i <= TotalFrames
      invariant c <= i <= Min(c + BatchSize, TotalFrames + 1)
      invariant pushed == images + Requests(Range(c, i))
    {
      assert Requests(Range(c, i + 1)) == Requests(Range(c, i)) + [Img(i, Pending)];
      pushed := pushed + [Img(i, Pending)];
      i := i + 1;
    }
  }

  /** A pending `setTimeout` of `finishLoading`'s ready branch, with the
      `firstFrameReady` it captured and its delay. */
  datatype FinishTimer = FinishTimer(firstFrameReady: bool, wait: nat)

  class Preloader {
    // React state
    var progress: nat
    var loadingText: StatusLine
    var isComplete: bool
    // variables of the effect's closure
    var images: seq<Img>
    var loadedCount: nat
    var failedCount: nat
    /** `current` of each `startPreload` call so far. */
    var cursors: seq<nat>
    // globals on `window`
    /** `window.preloadedFrames` holds this loader's `images` array (the same array, not a copy). */
    var published: bool
    var framesReady: bool
    var firstFrame: Option<Img>
    // scheduled callbacks
    /** The animation-frame callback and the retry timers not yet run. */
    var pendingStarts: nat
    var finishTimers: seq<FinishTimer>
    /** Running `setInterval` checks of `window.firstFrame`. */
    var pollers: nat

    ghost var history: seq<Completion>
    /** The element the browser has just settled, whose handler is running;
        `None` between events. */
    ghost var settling: Option<nat>

    /** What holds between handlers, apart from the counters the frame
        handler is in the middle of updating. */
    ghost predicate Structure()
      reads this`images, this`history, this`finishTimers, this`firstFrame, this`pollers, this`isComplete, this`published, this`framesReady
    {
      && CountComplete(images) == |history|
      && CountDrawable(images) + Failures(history) == |history|
      && (forall t :: 0 <= t < |finishTimers| ==> finishTimers[t].firstFrameReady ==> firstFrame.Some?)
      && (pollers > 0 || isComplete || |finishTimers| > 0 ==> published)
      && (isComplete ==> firstFrame.Some?)
      && (firstFrame.Some? ==> Drawable(firstFrame.value))
      && (firstFrame.Some? ==>
            |history| > 0 && history[0].index < |images| && firstFrame.value == images[history[0].index])
      && framesReady == published
      && (published ==> CountDrawable(images) >= ReadyThreshold)
    }

    /** The counters and what is shown agree with the events so far. */
    ghost predicate Counted()
      reads this`images, this`history, this`finishTimers, this`firstFrame, this`pollers, this`isComplete, this`published, this`framesReady
      reads this`loadedCount, this`failedCount, this`progress, this`loadingText
    {
      && Structure()
      && loadedCount == |history|
      && failedCount == Failures(history)
      && progress == loadedCount
      && loadingText == (if loadedCount == 0 then Initializing else UpdateText(progress))
    }

    ghost predicate Valid()
      reads this`images, this`history, this`finishTimers, this`firstFrame, this`pollers, this`isComplete, this`published, this`framesReady
      reads this`loadedCount, this`failedCount, this`progress, this`loadingText, this`settling
    {
      && Counted()
      && settling.None?
      && (firstFrame.Some? <==> |history| > 0 && history[0].Loaded?)
    }

    constructor ()
      ensures Valid()
      ensures progress == 0 && loadingText == Initializing && !isComplete
      ensures images == [] && cursors == [] && pendingStarts == 1
      ensures !published && !framesReady && firstFrame.None?
      ensures finishTimers == [] && pollers == 0 && history == []
    {
      progress := 0;
      loadingText := Initializing;
      isComplete := false;
      images := [];
      loadedCount := 0;
      failedCount := 0;
      cursors := [];
      published := false;
      framesReady := false;
      firstFrame := None;
      pendingStarts := 1;
      finishTimers := [];
      pollers := 0;
      history := [];
      settling := None;
    }

    /** `startPreload`, run by the animation frame or by a retry timer: a
        new pass from frame 1, whose first batch is requested at once. The
        counters and the `images` array are kept. */
    method StartPreload()
      requires Valid() && pendingStarts > 0
      modifies this`pendingStarts, this`cursors, this`images
      ensures Valid()
      ensures pendingStarts == old(pendingStarts) - 1
      ensures cursors == old(cursors) + [1 + BatchSize]
      ensures images == old(images) + Requests(Batch(1))
    {
      pendingStarts := pendingStarts - 1;
      cursors := cursors + [1];
      LoadBatch(|cursors| - 1);
    }

    /** `loadBatch` of pass `p`: requests the frames from `current` up to
        ten at a time, never past frame 100, and advances `current`. */
    method LoadBatch(p: nat)
      requires Valid() && p < |cursors| && cursors[p] <= TotalFrames
      modifies this`cursors, this`images
      ensures Valid()
      ensures cursors == old(cursors)[p := old(cursors)[p] + BatchSize]
      ensures images == old(images) + Requests(Batch(old(cursors)[p]))
    {
      var c := cursors[p];
      var pushed := PushBatch(images, c);
      CountsAppendPending(images, Requests(Batch(c)));
      images := pushed;
      cursors := cursors[p := c + BatchSize];
    }

    /** `img.onload` of `images[k]`: the image decoded with the given size. */
    method OnLoad(k: nat, width: pos, height: pos, elapsed: nat)
      requires Valid() && k < |images| && images[k].state == Pending
      modifies this`images, this`history, this`settling
      modifies this`loadedCount, this`progress, this`loadingText, this`firstFrame
      modifies this`published, this`framesReady, this`finishTimers, this`pendingStarts
      ensures Valid()
      ensures images == old(images)[k := old(images)[k].(state := Decoded(width, height))]
      ensures history == old(history) + [Loaded(k)]
      ensures loadedCount == old(loadedCount) + 1 && failedCount == old(failedCount)
      ensures firstFrame == if old(loadedCount) == 0 then Some(images[k]) else old(firstFrame)
      ensures FinishCalled(old(published), old(pendingStarts), old(finishTimers), old(firstFrame), elapsed)
    {
      Settle(k, Decoded(width, height));
      HandleFrameLoaded(images[k], elapsed);
    }

    /** `img.onerror` of `images[k]`: `handleFrameError` counts a failure and
        then runs `handleFrameLoaded` on a new, empty image element. */
    method OnError(k: nat, elapsed: nat)
      requires Valid() && k < |images| && images[k].state == Pending
      modifies this`images, this`history, this`settling, this`failedCount
      modifies this`loadedCount, this`progress, this`loadingText, this`firstFrame
      modifies this`published, this`framesReady, this`finishTimers, this`pendingStarts
      ensures Valid()
      ensures images == old(images)[k := old(images)[k].(state := Broken)]
      ensures history == old(history) + [Failed(k)]
      ensures loadedCount == old(loadedCount) + 1 && failedCount == old(failedCount) + 1
      ensures firstFrame == old(firstFrame)
      ensures FinishCalled(old(published), old(pendingStarts), old(finishTimers), old(firstFrame), elapsed)
    {
      Settle(k, Broken);
      failedCount := failedCount + 1;
      HandleFrameLoaded(Img(0, Broken), elapsed);
    }

    /** The browser settles `images[k]` as decoded or broken; its handler
        runs next. The event is recorded in `history`. */
    method Settle(k: nat, st: ImgState)
      requires Valid() && k < |images| && images[k].state == Pending && st != Pending
      modifies this`images, this`history, this`settling
      ensures settling == Some(k)
      ensures images == old(images)[k := old(images)[k].(state := st)]
      ensures history == old(history) + [if st.Decoded? then Loaded(k) else Failed(k)]
      ensures Structure() && |history| == loadedCount + 1
      ensures Failures(history) == failedCount + (if st.Decoded? then 0 else 1)
      ensures firstFrame.Some? <==> loadedCount > 0 && history[0].Loaded?
    {
      var c := if st.Decoded? then Loaded(k) else Failed(k);
      SettleCounts(images, history, k, st, c);
      images := images[k := images[k].(state := st)];
      history := history + [c];
      settling := Some(k);
    }

    /** What the end of an image event did about `finishLoading`, given the
        state before the event: nothing while `loaded + failed < 100`;
        otherwise publish and schedule the completion timer when at least 80 images
        decoded, and schedule a retry when not. */
    ghost predicate FinishCalled(published0: bool, starts0: nat, timers0: seq<FinishTimer>, first0: Option<Img>, elapsed: nat)
      reads this
    {
      if !FinishFires(history) then
        published == published0 && pendingStarts == starts0 && finishTimers == timers0
      else if CountDrawable(images) >= ReadyThreshold then
        published && framesReady && pendingStarts == starts0
        && finishTimers == timers0 + [FinishTimer(first0.Some?, WaitTime(elapsed))]
      else
        published == published0 && pendingStarts == starts0 + 1 && finishTimers == timers0
    }

    /** `handleFrameLoaded`, entered with the event already recorded in
        `history` and `failedCount` but not yet in `loadedCount`. */
    method HandleFrameLoaded(img: Img, elapsed: nat)
      requires Structure() && |history| == loadedCount + 1 && failedCount == Failures(history)
      requires firstFrame.Some? <==> loadedCount > 0 && history[0].Loaded?
      requires settling.Some? && settling.value < |images|
      requires var k := settling.value;
        && history[|history| - 1] == (if images[k].state.Decoded? then Loaded(k) else Failed(k))
        && img == (if images[k].state.Decoded? then images[k] else Img(0, Broken))
      modifies this`loadedCount, this`progress, this`loadingText, this`firstFrame
      modifies this`published, this`framesReady, this`finishTimers, this`pendingStarts, this`settling
      ensures Valid()
      ensures loadedCount == old(loadedCount) + 1
      ensures firstFrame == if old(loadedCount) == 0 && Drawable(img) then Some(img) else old(firstFrame)
      ensures FinishCalled(old(published), old(pendingStarts), old(finishTimers), old(firstFrame), elapsed)
    {
      CountCompletion();
      if loadedCount + failedCount >= TotalFrames {
        assert FinishFires(history);
        FinishLoading(elapsed);
      } else {
        assert !FinishFires(history);
      }
      if loadedCount == 1 && Drawable(img) {
        firstFrame := Some(img);
      }
      settling := None;
    }

    /** The first lines of `handleFrameLoaded`: count the event and show the
        rounded percentage with its status line. */
    method CountCompletion()
      requires Structure() && |history| == loadedCount + 1 && failedCount == Failures(history)
      modifies this`loadedCount, this`progress, this`loadingText
      ensures Counted()
      ensures loadedCount == old(loadedCount) + 1
    {
      loadedCount := loadedCount + 1;
      PercentOfHundred(loadedCount);
      progress := Percent(loadedCount, TotalFrames);
      loadingText := UpdateText(progress);
    }

    /** `finishLoading`: publish when at least 80 images are complete with a
        natural height, else retry a second later. */
    method FinishLoading(elapsed: nat)
      requires Counted() && settling.Some? && FinishFires(history)
      modifies this`published, this`framesReady, this`finishTimers, this`pendingStarts
      ensures Counted()
      ensures CountDrawable(images) >= ReadyThreshold ==>
        && published && framesReady && pendingStarts == old(pendingStarts)
        && finishTimers == old(finishTimers) + [FinishTimer(firstFrame.Some?, WaitTime(elapsed))]
      ensures CountDrawable(images) < ReadyThreshold ==>
        && published == old(published) && framesReady == old(framesReady)
        && pendingStarts == old(pendingStarts) + 1 && finishTimers == old(finishTimers)
    {
      if CountDrawable(images) >= ReadyThreshold {
        published := true;
        framesReady := true;
        var firstFrameReady := firstFrame.Some?;
        finishTimers := finishTimers + [FinishTimer(firstFrameReady, WaitTime(elapsed))];
      } else {
        pendingStarts := pendingStarts + 1;
      }
    }

    /** The completion timer `t` fires: complete at once if a first frame was
        known when it was scheduled, otherwise start polling for one. */
    method FinishTimerFires(t: nat)
      requires Valid() && t < |finishTimers|
      modifies this`finishTimers, this`isComplete, this`pollers
      ensures Valid()
      ensures finishTimers == old(finishTimers[..t] + finishTimers[t + 1..])
      ensures old(finishTimers[t]).firstFrameReady ==> isComplete && pollers == old(pollers)
      ensures !old(finishTimers[t]).firstFrameReady ==> isComplete == old(isComplete) && pollers == old(pollers) + 1
    {
      var ready := finishTimers[t].firstFrameReady;
      finishTimers := finishTimers[..t] + finishTimers[t + 1..];
      if ready {
        isComplete := true;
      } else {
        pollers := pollers + 1;
      }
    }

    /** One 100 ms tick of a polling interval: it completes and stops once
        `window.firstFrame` is set. */
    method PollTick()
      requires Valid() && pollers > 0
      modifies this`isComplete, this`pollers
      ensures Valid()
      ensures firstFrame.Some? ==> isComplete && pollers == old(pollers) - 1
      ensures firstFrame.None? ==> isComplete == old(isComplete) && pollers == old(pollers)
    {
      if firstFrame.Some? {
        pollers := pollers - 1;
        isComplete := true;
      }
    }
  }

  /** If the very first image event is an error, no first frame is ever
      recorded by this loader, so `isComplete` is never set and the final
      spinner never shows: the polling runs forever. The `window.firstFrame`
      slot is this loader's own field here. */
  lemma FirstErrorNeverCompletes(p: Preloader)
    requires p.Valid() && |p.history| > 0 && p.history[0].Failed?
    ensures p.firstFrame.None? && !p.isComplete
  {
  }

  /** `isComplete` is set only after readiness was published, and the
      published images then include at least 80 decoded ones; the first
      frame is the element whose `onload` was the first event. */
  lemma CompletionNeedsReadiness(p: Preloader)
    requires p.Valid() && p.isComplete
    ensures p.published && p.framesReady && CountDrawable(p.images) >= ReadyThreshold
    ensures p.firstFrame.Some? && p.history[0].Loaded?
    ensures p.history[0].index < |p.images| && p.firstFrame.value == p.images[p.history[0].index]
  {
  }

  /** A run in which every frame of the first pass fails: `finishLoading`
      first fires at the 50th error and schedules one more retry on each
      later error, 51 in all; a retried pass then pushes the count, and the
      percentage shown, past 100. */
  method RetryOvershoots() returns (retries: nat, progress: nat)
    ensures retries == 51
    ensures progress == 101
  {
    var p := new Preloader();
    p.StartPreload();
    var b := 1;
    while b < 10
      invariant 1 <= b <= 10
      invariant p.Valid() && p.history == [] && p.pendingStarts == 0
      invariant p.cursors == [1 + b * BatchSize]
      invariant |p.images| == b * BatchSize
      invariant forall j :: 0 <= j < |p.images| ==> p.images[j].state == Pending
    {
      p.LoadBatch(0);
      b := b + 1;
    }
    var k := 0;
    while k < TotalFrames
      invariant 0 <= k <= TotalFrames
      invariant p.Valid() && |p.history| == k && p.failedCount == k && p.loadedCount == k
      invariant |p.images| == TotalFrames && !p.published
      invariant forall j :: k <= j < |p.images| ==> p.images[j].state == Pending
      invariant p.pendingStarts == if k >= TotalFrames / 2 then k + 1 - TotalFrames / 2 else 0
    {
      p.OnError(k, 0);
      assert CountDrawable(p.images) == 0;
      k := k + 1;
    }
    retries := p.pendingStarts;
    p.StartPreload();
    assert p.images[TotalFrames] == Img(1, Pending);
    p.OnLoad(TotalFrames, 1, 1, 0);
    progress := p.progress;
  }
}
