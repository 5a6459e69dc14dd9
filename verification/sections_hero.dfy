/** The home page hero (`src/components/sections/hero.tsx`): on a desktop it
    requests 120 frames from an image service, counts the ones that load,
    shows a loading overlay with a percentage until all of them have loaded,
    and draws the frame under the scroll position on a 1920x1080 canvas. On
    a mobile device it requests nothing and shows the first frame as a
    static image. */
module SectionsHero {
  import opened JsString
  import opened Frames

  const FrameCount: nat := 120

  const UrlPrefix: string := "https://picsum.photos/seed/frame"
  const UrlSuffix: string := "/1920/1080"

  /** `frameUrl`: the address of frame `n`. */
  function FrameUrl(n: nat): string {
    UrlPrefix + NatToString(n) + UrlSuffix
  }

  /** Distinct frames are fetched from distinct addresses. */
  lemma FrameUrlInjective(i: nat, j: nat)
    requires FrameUrl(i) == FrameUrl(j)
    ensures i == j
  {
    var u, v := FrameUrl(i), FrameUrl(j);
    assert u[|UrlPrefix|..|u| - |UrlSuffix|] == NatToString(i);
    assert v[|UrlPrefix|..|v| - |UrlSuffix|] == NatToString(j);
    NatToStringInjective(i, j);
  }

  /** What fills the hero behind its text: the static first frame on a
      mobile device, the canvas otherwise. */
  datatype Background = StaticImage(url: string) | Canvas

  function BackgroundFor(isMobile: bool): (b: Background)
    ensures b.StaticImage? <==> isMobile
  {
    if isMobile then StaticImage(FrameUrl(1)) else Canvas
  }

  /** `loading && !isMobile`: the overlay with the percentage is shown. */
  predicate OverlayShown(loading: bool, isMobile: bool) {
    loading && !isMobile
  }

  /** With 120 frames the rounded percentage reaches 100 only when every
      frame has loaded: 119 loads show 99. */
  lemma ProgressHundredOnlyAtEnd(loaded: nat)
    requires loaded <= FrameCount
    ensures Percent(loaded, FrameCount) == 100 <==> loaded == FrameCount
  {
    PercentOfAll(FrameCount);
    if loaded < FrameCount {
      assert 240 * Percent(loaded, FrameCount) <= 200 * loaded + 120;
    }
  }

  class Hero {
    /** `useIsMobile()` for the run of the effect. */
    const isMobile: bool
    var loading: bool
    var progress: nat
    /** The effect's `images`: element `j` requests frame `j + 1`. */
    var images: seq<Img>
    /** `frame.current`, the index the scroll animation has reached. */
    var frameCurrent: nat
    var loadedImages: nat
    /** The images passed to `drawImage`, in order, as they were at the call. */
    var draws: seq<Img>
    /** The scroll animation's GSAP context is live. */
    var animated: bool

    ghost predicate Valid()
      reads this`images, this`loadedImages, this`progress, this`loading, this`frameCurrent, this`animated
    {
      && (isMobile ==> images == [] && loadedImages == 0 && !loading && !animated)
      && (!isMobile ==> |images| == FrameCount && forall j :: 0 <= j < FrameCount ==> images[j].frame == j + 1)
      && loadedImages == CountDrawable(images)
      && progress == Percent(loadedImages, FrameCount)
      && (loading <==> !isMobile && loadedImages < FrameCount)
      && frameCurrent < FrameCount
    }

    /** The effect: on mobile it only clears `loading`; otherwise it
        requests every frame in order and sets up the scroll animation. */
    constructor Mount(mobile: bool)
      ensures Valid() && isMobile == mobile
      ensures mobile ==> !loading && images == [] && !animated
      ensures !mobile ==> loading && animated && forall j :: 0 <= j < FrameCount ==> images[j] == Img(j + 1, Pending)
      ensures frameCurrent == 0 && progress == 0 && loadedImages == 0 && draws == []
    {
      var reqs: seq<Img> := [];
      if !mobile {
        reqs := PendingRequests(FrameCount);
      }
      isMobile := mobile;
      frameCurrent := 0;
      loadedImages := 0;
      progress := 0;
      draws := [];
      if mobile {
        loading := false;
        images := [];
        animated := false;
      } else {
        loading := true;
        images := reqs;
        animated := true;
      }
      new;
    }

    /** `render`: draws the element under `frame.current` whenever there is
        one, without asking whether it has loaded. */
    method Render()
      modifies this`draws
      ensures draws == old(draws) + (if frameCurrent < |images| then [images[frameCurrent]] else [])
    {
      if frameCurrent < |images| {
        draws := draws + [images[frameCurrent]];
      }
    }

    /** Frame `k + 1` decoded and its `onload` runs: it counts the load,
        updates the percentage, renders on the first load and clears
        `loading` on the 120th. */
    method OnLoad(k: nat, width: pos, height: pos)
      requires Valid() && !isMobile && k < FrameCount && images[k].state == Pending
      modifies this`images, this`loadedImages, this`progress, this`loading, this`draws
      ensures Valid()
      ensures images == old(images)[k := Img(k + 1, Decoded(width, height))]
      ensures loadedImages == old(loadedImages) + 1
      ensures draws == old(draws) + (if loadedImages == 1 then [images[frameCurrent]] else [])
      ensures loading <==> loadedImages < FrameCount
    {
      CountsFinish(images, k, Decoded(width, height));
      images := images[k := images[k].(state := Decoded(width, height))];
      loadedImages := loadedImages + 1;
      progress := Percent(loadedImages, FrameCount);
      if loadedImages == 1 {
        Render();
      }
      if loadedImages == FrameCount {
        loading := false;
      }
    }

    /** Frame `k + 1` failed. No `onerror` handler is attached, so only the
        element changes, and the overlay can no longer go away. */
    method OnError(k: nat)
      requires Valid() && !isMobile && k < FrameCount && images[k].state == Pending
      modifies this`images
      ensures Valid()
      ensures images == old(images)[k := Img(k + 1, Broken)]
      ensures loading && OverlayShown(loading, isMobile)
    {
      CountsFinish(images, k, Broken);
      images := images[k := images[k].(state := Broken)];
      CountDrawableMissesOne(images, k);
    }

    /** A scroll update: the timeline snaps `frame.current` to a whole index
        and renders. */
    method OnScrollUpdate(frame: nat)
      requires Valid() && animated && frame < FrameCount
      modifies this`frameCurrent, this`draws
      ensures Valid() && frameCurrent == frame
      ensures draws == old(draws) + [images[frame]]
    {
      frameCurrent := frame;
      Render();
    }

    /** The effect's cleanup reverts the animation; the image handlers stay. */
    method Cleanup()
      modifies this`animated
      ensures !animated
    {
      animated := false;
    }
  }

  /** The overlay is up exactly on a desktop while some frame has not
      decoded, so a single failed frame keeps it up for good: a failed
      element never loads again. */
  lemma OverlayIffFrameMissing(h: Hero)
    requires h.Valid()
    ensures OverlayShown(h.loading, h.isMobile) <==>
      !h.isMobile && exists k :: 0 <= k < FrameCount && !Drawable(h.images[k])
  {
    if !h.isMobile {
      CountDrawableAll(h.images);
    }
  }

  /** The first load draws element 0, whichever frame finished first: when
      frame 6 loads first, the canvas is asked to draw frame 1, which is
      still loading, and so paints nothing. */
  method FirstLoadDrawsFrameOne() returns (drawn: seq<Img>)
    ensures drawn == [Img(1, Pending)]
  {
    var h := new Hero.Mount(false);
    h.OnLoad(5, 1920, 1080);
    drawn := h.draws;
  }

  /** One failure among the 120 keeps the overlay up even after every other
      frame has loaded. */
  lemma OneFailureKeepsOverlay(h: Hero, k: nat)
    requires h.Valid() && !h.isMobile && k < FrameCount && h.images[k].state == Broken
    ensures OverlayShown(h.loading, h.isMobile)
    ensures h.progress < 100
  {
    CountDrawableMissesOne(h.images, k);
    ProgressHundredOnlyAtEnd(h.loadedImages);
    PercentMonotone(h.loadedImages, FrameCount, FrameCount);
  }
}
