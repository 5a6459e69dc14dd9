/** The show-case loading screen (`src/app/show-case/loading.tsx`). It
    requests frames 1..100 at once and counts every completion, success or
    failure, towards a rounded percentage. A success also appends its image
    to `images`, in completion order, and once ten completions have been
    counted every success (re)publishes `images`, a ready flag and
    `images[0]` as the first frame on `window`. Unmounting detaches the
    handlers of the images in `images` only. */
module ShowcaseLoading {
  import opened JsString
  import opened Frames

  const FrameCount: nat := 100
  /** `Math.min(10, frameCount)` */
  const PublishAt: nat := 10

  /** A handled image event, naming the index of the request (frame minus one). */
  datatype Settled = Load(req: nat) | Error(req: nat)

  /** The requests whose `onload` ran, in order: the contents of `images`. */
  function LoadsOf(h: seq<Settled>): (r: seq<nat>)
    ensures |r| <= |h|
    ensures forall m :: 0 <= m < |r| ==> Load(r[m]) in h
  {
    if h == [] then []
    else LoadsOf(h[..|h| - 1]) + (if h[|h| - 1].Load? then [h[|h| - 1].req] else [])
  }

  /** Some success ran when at least ten events had been handled: the flags
      are published. */
  predicate PublishedBy(h: seq<Settled>) {
    exists j :: PublishAt - 1 <= j < |h| && h[j].Load?
  }

  lemma LoadsOfSnoc(h: seq<Settled>, e: Settled)
    ensures LoadsOf(h + [e]) == LoadsOf(h) + (if e.Load? then [e.req] else [])
  {
    assert (h + [e])[..|h|] == h;
  }

  /** Publication after one more event. */
  lemma PublishedBySnoc(h: seq<Settled>, e: Settled)
    ensures PublishedBy(h + [e]) <==> PublishedBy(h) || (e.Load? && |h| + 1 >= PublishAt)
  {
    var h' := h + [e];
    if PublishedBy(h) {
      var j :| PublishAt - 1 <= j < |h| && h[j].Load?;
      assert h'[j] == h[j];
    }
    if PublishedBy(h') && !(e.Load? && |h| + 1 >= PublishAt) {
      var j :| PublishAt - 1 <= j < |h'| && h'[j].Load?;
      assert j < |h| && h[j] == h'[j];
    }
    if e.Load? && |h| + 1 >= PublishAt {
      assert h'[|h|].Load?;
    }
  }

  /** One success appended to the events: it joins `images` and publishes
      from the tenth event on. */
  lemma LoadStep(h: seq<Settled>, images: seq<nat>, j: nat)
    requires images == LoadsOf(h) && j < FrameCount
    requires forall m :: 0 <= m < |h| ==> h[m].req < FrameCount
    ensures var h' := h + [Load(j)];
      && images + [j] == LoadsOf(h')
      && (forall m :: 0 <= m < |h'| ==> h'[m].req < FrameCount)
      && (PublishedBy(h') <==> PublishedBy(h) || |h'| >= PublishAt)
      && (images + [j])[0] == (if |images| > 0 then images[0] else j)
  {
    LoadsOfSnoc(h, Load(j));
    PublishedBySnoc(h, Load(j));
  }

  lemma {:induction false} LoadsOfErrors(h: seq<Settled>)
    requires forall j :: 0 <= j < |h| ==> h[j].Error?
    ensures LoadsOf(h) == []
  {
    if h != [] {
      LoadsOfErrors(h[..|h| - 1]);
    }
  }

  /** Failures count towards the ten: nine errors followed by one success
      publish readiness with a single image, which is whichever frame
      succeeded, not frame 1. */
  lemma NineErrorsThenOneLoad(h: seq<Settled>, r: nat)
    requires |h| == PublishAt - 1 && forall j :: 0 <= j < |h| ==> h[j].Error?
    ensures PublishedBy(h + [Load(r)])
    ensures LoadsOf(h + [Load(r)]) == [r]
  {
    LoadsOfErrors(h);
    LoadsOfSnoc(h, Load(r));
    assert (h + [Load(r)])[PublishAt - 1].Load?;
  }

  /** Errors alone never publish, however many there are. */
  lemma ErrorsNeverPublish(h: seq<Settled>)
    requires forall j :: 0 <= j < |h| ==> h[j].Error?
    ensures !PublishedBy(h)
  {
  }

  /** `progress === 100 ? "Ready..." : "Loading frames..."` */
  function Label(progress: nat): string {
    if progress == 100 then "Ready..." else "Loading frames..."
  }

  /** The handlers' state after the handled events `h`: one count per
      event, the successes in `images`, and the flags published once a
      success has run at the tenth event or later. */
  predicate Tallied(h: seq<Settled>, loadedCount: nat, images: seq<nat>, progress: nat,
                    published: bool, framesReady: bool, firstFrame: Option<nat>)
  {
    && loadedCount == |h|
    && (forall m :: 0 <= m < |h| ==> h[m].req < FrameCount)
    && images == LoadsOf(h)
    && progress == loadedCount
    && (published <==> PublishedBy(h))
    && framesReady == published
    && (published ==> |images| > 0)
    && firstFrame == (if published then Some(images[0]) else None)
  }

  /** A success keeps the tally: the count and `images` grow, and the flags
      and first frame are (re)published from the tenth event on. */
  lemma TalliedLoad(h: seq<Settled>, loadedCount: nat, images: seq<nat>, progress: nat,
                    published: bool, framesReady: bool, firstFrame: Option<nat>, j: nat)
    requires Tallied(h, loadedCount, images, progress, published, framesReady, firstFrame)
    requires j < FrameCount
    ensures var published' := published || loadedCount + 1 >= PublishAt;
      Tallied(h + [Load(j)], loadedCount + 1, images + [j], loadedCount + 1, published', published',
              if published' then Some((images + [j])[0]) else None)
  {
    LoadStep(h, images, j);
  }

  /** A failure keeps the tally: only the count grows. */
  lemma TalliedError(h: seq<Settled>, loadedCount: nat, images: seq<nat>, progress: nat,
                     published: bool, framesReady: bool, firstFrame: Option<nat>, j: nat)
    requires Tallied(h, loadedCount, images, progress, published, framesReady, firstFrame)
    requires j < FrameCount
    ensures Tallied(h + [Error(j)], loadedCount + 1, images, loadedCount + 1, published, framesReady, firstFrame)
  {
    LoadsOfSnoc(h, Error(j));
    PublishedBySnoc(h, Error(j));
  }

  /** Event `e` is borne out by the request it names: a success decoded it,
      a failure broke it. */
  predicate Matches(e: Settled, requests: seq<Img>) {
    e.req < |requests|
    && (if e.Load? then requests[e.req].state.Decoded? else requests[e.req].state.Broken?)
  }

  class FramePreloader {
    /** The image elements created by the loop, request `j` for frame `j + 1`. */
    var requests: seq<Img>
    /** Whether request `j` still has its `onload`/`onerror` handlers. */
    var attached: seq<bool>
    var loadedCount: nat
    /** The request index of each element of `images`. */
    var images: seq<nat>
    var progress: nat
    // globals on `window`
    /** `window.preloadedFrames` holds this loader's `images` array. */
    var published: bool
    var framesReady: bool
    var firstFrame: Option<nat>

    ghost var history: seq<Settled>
    /** The request the browser has just settled and whose handler is
        running; `None` between events. */
    ghost var settling: Option<nat>

    ghost predicate Valid()
      reads this`requests, this`attached, this`loadedCount, this`history, this`settling, this`images
      reads this`progress, this`published, this`framesReady, this`firstFrame
    {
      Inv() && settling.None?
    }

    /** The invariant, which also holds while a handler is running. */
    ghost predicate Inv()
      reads this`requests, this`attached, this`loadedCount, this`history, this`settling, this`images
      reads this`progress, this`published, this`framesReady, this`firstFrame
    {
      && |requests| == FrameCount && |attached| == FrameCount
      && (forall j :: 0 <= j < FrameCount ==> requests[j].frame == j + 1)
      && CountComplete(requests) == |history| + (if settling.Some? then 1 else 0)
      && (settling.Some? ==> settling.value < FrameCount && !requests[settling.value].state.Pending?)
      && (forall m :: 0 <= m < |history| ==> Matches(history[m], requests))
      && (forall j :: 0 <= j < FrameCount && !attached[j] ==> j in images)
      && Tallied(history, loadedCount, images, progress, published, framesReady, firstFrame)
    }

    /** The effect's `for` loop: one request per frame, handlers attached. */
    constructor ()
      ensures Valid()
      ensures forall j :: 0 <= j < FrameCount ==> requests[j] == Img(j + 1, Pending) && attached[j]
      ensures loadedCount == 0 && progress == 0 && images == [] && !published && firstFrame.None?
    {
      var reqs := PendingRequests(FrameCount);
      var handlers := seq(FrameCount, _ => true);
      requests := reqs;
      attached := handlers;
      loadedCount := 0;
      images := [];
      progress := 0;
      published := false;
      framesReady := false;
      firstFrame := None;
      history := [];
      settling := None;
    }

    /** Request `j` decoded and its `onload` runs: a request still pending
        was never in `images`, so its handler is attached. */
    method OnLoad(j: nat, width: pos, height: pos)
      requires Valid() && j < FrameCount && requests[j].state == Pending
      modifies this`requests, this`settling, this`history, this`loadedCount, this`images
      modifies this`progress, this`published, this`framesReady, this`firstFrame
      ensures Valid()
      ensures requests == old(requests)[j := old(requests)[j].(state := Decoded(width, height))]
      ensures history == old(history) + [Load(j)]
      ensures loadedCount == old(loadedCount) + 1
      ensures images == old(images) + [j]
      ensures published <==> old(published) || loadedCount >= PublishAt
    {
      PendingIsAttached(this, j);
      Settle(j, Decoded(width, height));
      HandleLoad(j);
    }

    /** Request `j` failed and its `onerror` counts it. */
    method OnError(j: nat)
      requires Valid() && j < FrameCount && requests[j].state == Pending
      modifies this`requests, this`settling, this`history, this`loadedCount, this`progress
      ensures Valid()
      ensures requests == old(requests)[j := old(requests)[j].(state := Broken)]
      ensures history == old(history) + [Error(j)]
      ensures loadedCount == old(loadedCount) + 1
    {
      PendingIsAttached(this, j);
      Settle(j, Broken);
      HandleError(j);
    }

    /** The browser settles request `j`; its handler runs next. */
    method Settle(j: nat, st: ImgState)
      requires Valid() && j < FrameCount && requests[j].state == Pending && st != Pending
      modifies this`requests, this`settling
      ensures Inv() && settling == Some(j)
      ensures requests == old(requests)[j := old(requests)[j].(state := st)]
    {
      CountsFinish(requests, j, st);
      requests := requests[j := requests[j].(state := st)];
      settling := Some(j);
    }

    /** The `onload` handler of the request just decoded. */
    method HandleLoad(j: nat)
      requires Inv() && settling == Some(j) && requests[j].state.Decoded?
      modifies this`history, this`loadedCount, this`images, this`progress
      modifies this`published, this`framesReady, this`firstFrame, this`settling
      ensures Valid()
      ensures history == old(history) + [Load(j)]
      ensures loadedCount == old(loadedCount) + 1
      ensures images == old(images) + [j]
      ensures published <==> old(published) || loadedCount >= PublishAt
    {
      TalliedLoad(history, loadedCount, images, progress, published, framesReady, firstFrame, j);
      PercentOfHundred(loadedCount + 1);
      history := history + [Load(j)];
      loadedCount := loadedCount + 1;
      images := images + [j];
      progress := Percent(loadedCount, FrameCount);
      if loadedCount >= PublishAt {
        published := true;
        framesReady := true;
        if |images| > 0 {
          firstFrame := Some(images[0]);
        }
      }
      settling := None;
    }

    /** The `onerror` handler of the request just broken: it counts and
        never touches `images` or the flags. */
    method HandleError(j: nat)
      requires Inv() && settling == Some(j) && requests[j].state.Broken?
      modifies this`history, this`loadedCount, this`progress, this`settling
      ensures Valid()
      ensures history == old(history) + [Error(j)]
      ensures loadedCount == old(loadedCount) + 1
    {
      TalliedError(history, loadedCount, images, progress, published, framesReady, firstFrame, j);
      PercentOfHundred(loadedCount + 1);
      history := history + [Error(j)];
      loadedCount := loadedCount + 1;
      progress := Percent(loadedCount, FrameCount);
      settling := None;
    }

    /** The effect's cleanup: `images.forEach` nulls the handlers of the
        images that loaded; pending and failed requests keep theirs. */
    method Cleanup()
      requires Valid()
      modifies this`attached
      ensures Valid()
      ensures forall j :: 0 <= j < FrameCount ==> attached[j] == (old(attached[j]) && j !in images)
    {
      var m := 0;
      while m < |images|
        invariant 0 <= m <= |images|
        invariant Valid()
        invariant forall j :: 0 <= j < FrameCount ==> attached[j] == (old(attached[j]) && j !in images[..m])
      {
        assert Load(images[m]) in history;
        attached := attached[images[m] := false];
        assert images[..m + 1] == images[..m] + [images[m]];
        m := m + 1;
      }
      assert images[..m] == images;
    }
  }

  /** `images` holds only decoded requests, so the handlers a cleanup
      detaches belong to loaded images, and a request still pending keeps
      its handlers: every completion is counted. */
  lemma PendingIsAttached(p: FramePreloader, j: nat)
    requires p.Valid() && j < FrameCount
    ensures j in p.images ==> p.requests[j].state.Decoded?
    ensures !p.attached[j] ==> p.requests[j].state.Decoded?
    ensures p.requests[j].state.Pending? ==> p.attached[j]
  {
    if j in p.images {
      assert Load(j) in p.history;
      var m :| 0 <= m < |p.history| && p.history[m] == Load(j);
      assert Matches(p.history[m], p.requests);
    }
  }

  /** Every completion counts once, so the label reads "Ready..." exactly
      when the percentage is 100, which is when every request has settled. */
  lemma ReadyLabelIffAllSettled(p: FramePreloader)
    requires p.Valid()
    ensures Label(p.progress) == "Ready..." <==> p.progress == 100
    ensures p.progress == 100 <==> forall j :: 0 <= j < FrameCount ==> Complete(p.requests[j])
  {
    CountCompleteAll(p.requests);
    assert "Loading frames..."[0] != "Ready..."[0];
  }
}
