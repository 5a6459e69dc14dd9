/** What the four frame loaders and the gallery share: the zero-padded frame
    file names, the integer percentage shown while loading, and the state of
    one `HTMLImageElement` as the loaders observe it. */
module Frames {
  import opened JsString

  type pos = n: nat | n > 0 witness 1

  /** `String(n).padStart(3, "0")`, the `pad3` of the gallery. */
  function Pad3(n: nat): string {
    PadStart(NatToString(n), 3, '0')
  }

  /** `/frames/NNN.png`, the file of frame `i`. */
  function FramePath(i: nat): string {
    "/frames/" + Pad3(i) + ".png"
  }

  /** Padding keeps the number readable: the digits of `Pad3(n)` still denote `n`. */
  lemma Pad3Value(n: nat)
    ensures forall k :: 0 <= k < |Pad3(n)| ==> IsDigit(Pad3(n)[k])
    ensures DecimalValue(Pad3(n)) == n
  {
    var d := NatToString(n);
    DecimalValueOfNatToString(n);
    if |d| < 3 {
      assert Pad3(n) == Repeat('0', 3 - |d|) + d;
      DecimalValueLeadingZeros(3 - |d|, d);
    }
  }

  /** `pad3` yields exactly three characters below 1000 and never truncates. */
  lemma Pad3Length(n: nat)
    ensures n < 1000 ==> |Pad3(n)| == 3
    ensures n >= 1000 ==> Pad3(n) == NatToString(n)
    ensures Pad3(n)[|Pad3(n)| - |NatToString(n)|..] == NatToString(n)
  {
    if n < 1000 {
      NatToStringBelowThousand(n);
    } else {
      assert n >= 10;
      NatToStringAtLeastThousand(n);
    }
  }

  lemma NatToStringAtLeastThousand(n: nat)
    requires n >= 1000
    ensures |NatToString(n)| >= 4
  {
    NatToStringAtLeastHundred(n / 10);
  }

  lemma NatToStringAtLeastHundred(n: nat)
    requires n >= 100
    ensures |NatToString(n)| >= 3
  {
    assert |NatToString(n / 10)| >= 2 by {
      assert |NatToString(n / 10)| == |NatToString(n / 10 / 10)| + 1;
    }
  }

  lemma Pad3Injective(a: nat, b: nat)
    requires Pad3(a) == Pad3(b)
    ensures a == b
  {
    Pad3Value(a);
    Pad3Value(b);
  }

  /** Distinct frames are fetched from distinct files. */
  lemma FramePathInjective(i: nat, j: nat)
    requires FramePath(i) == FramePath(j)
    ensures i == j
  {
    var p, q := FramePath(i), FramePath(j);
    assert Pad3(i) == p[8..|p| - 4];
    assert Pad3(j) == q[8..|q| - 4];
    Pad3Injective(i, j);
  }

  /** `Math.round((count / total) * 100)` over exact rationals: the integer
      nearest to `100 * count / total`, halves rounded up. */
  function Percent(count: nat, total: pos): (p: nat)
    ensures 2 * total * p <= 200 * count + total < 2 * total * (p + 1)
  {
    (200 * count + total) / (2 * total)
  }

  /** With 100 frames the percentage is the completion count itself. */
  lemma PercentOfHundred(count: nat)
    ensures Percent(count, 100) == count
  {
    var p := Percent(count, 100);
    assert 200 * p <= 200 * count + 100 < 200 * (p + 1);
  }

  lemma PercentMonotone(a: nat, b: nat, total: pos)
    requires a <= b
    ensures Percent(a, total) <= Percent(b, total)
  {
    var p, q := Percent(a, total), Percent(b, total);
    assert 200 * a <= 200 * b;
    if q < p {
      MulStrict(2 * total, q, p);
    }
  }

  lemma PercentOfAll(total: pos)
    ensures Percent(total, total) == 100
  {
    DivUnique(200 * total + total, 2 * total, 100);
  }

  lemma DivUnique(a: int, b: int, q: int)
    requires b > 0 && b * q <= a < b * q + b
    ensures a / b == q
  {
    var r := a / b;
    if r < q {
      MulStrict(b, r, q);
    } else if r > q {
      MulStrict(b, q, r);
    }
  }

  lemma MulStrict(b: int, x: int, y: int)
    requires b > 0 && x < y
    ensures b * x + b <= b * y
    decreases y - x
  {
    assert b * y == b * (y - 1) + b;
    if y - 1 > x {
      MulStrict(b, x, y - 1);
    }
  }

  /** An image element as its load callbacks see it: still loading, decoded
      with its natural size, or broken (a failed load, or an element with no
      `src`). Browsers report a decoded image with positive dimensions. */
  datatype ImgState = Pending | Decoded(width: pos, height: pos) | Broken

  /** An image element requested for frame `frame` (0 for a `new Image()`
      that was never given a `src`). */
  datatype Img = Img(frame: nat, state: ImgState)

  /** `img.complete`: true once loading has finished, whether or not it decoded. */
  predicate Complete(img: Img) {
    !img.state.Pending?
  }

  /** `img.naturalHeight`: 0 unless the image decoded. */
  function NaturalHeight(img: Img): nat {
    if img.state.Decoded? then img.state.height else 0
  }

  /** `img.complete && img.naturalHeight > 0`, the test both `loading.tsx`
      and the show-case hero apply before using an image. */
  predicate Drawable(img: Img) {
    Complete(img) && NaturalHeight(img) > 0
  }

  /** `images.filter(img => img.complete && img.naturalHeight > 0).length` */
  function CountDrawable(images: seq<Img>): (n: nat)
    ensures n <= |images|
  {
    if images == [] then 0
    else CountDrawable(images[..|images| - 1]) + (if Drawable(images[|images| - 1]) then 1 else 0)
  }

  /** The number of images whose loading has finished. */
  function CountComplete(images: seq<Img>): (n: nat)
    ensures n <= |images|
  {
    if images == [] then 0
    else CountComplete(images[..|images| - 1]) + (if Complete(images[|images| - 1]) then 1 else 0)
  }

  /** The loaders' request loops: `count` new image elements, element `j`
      requesting frame `j + 1`, pushed in order; none has finished loading. */
  method PendingRequests(count: nat) returns (reqs: seq<Img>)
    ensures |reqs| == count
    ensures forall j :: 0 <= j < count ==> reqs[j] == Img(j + 1, Pending)
    ensures CountComplete(reqs) == 0 && CountDrawable(reqs) == 0
  {
    reqs := [];
    for i := 1 to count + 1
      invariant |reqs| == i - 1
      invariant forall j :: 0 <= j < i - 1 ==> reqs[j] == Img(j + 1, Pending)
      invariant CountComplete(reqs) == 0 && CountDrawable(reqs) == 0
    {
      CountsAppendPending(reqs, [Img(i, Pending)]);
      reqs := reqs + [Img(i, Pending)];
    }
  }

  /** A fresh request (pending) changes neither count. */
  lemma CountsAppendPending(images: seq<Img>, more: seq<Img>)
    requires forall k :: 0 <= k < |more| ==> more[k].state == Pending
    ensures CountDrawable(images + more) == CountDrawable(images)
    ensures CountComplete(images + more) == CountComplete(images)
    decreases |more|
  {
    if more == [] {
      assert images + more == images;
    } else {
      var init := more[..|more| - 1];
      CountsAppendPending(images, init);
      var all := images + more;
      assert all[..|all| - 1] == images + init;
      assert all[|all| - 1] == more[|more| - 1];
    }
  }

  /** Finishing one pending image adds one to the completed count, and one to
      the drawable count exactly when it decoded. */
  lemma {:induction false} CountsFinish(images: seq<Img>, k: nat, st: ImgState)
    requires k < |images| && images[k].state == Pending && st != Pending
    ensures CountComplete(images[k := images[k].(state := st)]) == CountComplete(images) + 1
    ensures CountDrawable(images[k := images[k].(state := st)]) ==
      CountDrawable(images) + (if st.Decoded? then 1 else 0)
    decreases |images|
  {
    var after := images[k := images[k].(state := st)];
    var n := |images|;
    if k == n - 1 {
      assert after[..n - 1] == images[..n - 1];
    } else {
      CountsFinish(images[..n - 1], k, st);
      assert after[..n - 1] == images[..n - 1][k := images[k].(state := st)];
    }
  }

  /** One image that did not decode keeps the drawable count below the total. */
  lemma {:induction false} CountDrawableMissesOne(images: seq<Img>, k: nat)
    requires k < |images| && !Drawable(images[k])
    ensures CountDrawable(images) < |images|
    decreases |images|
  {
    var n := |images|;
    if k < n - 1 {
      CountDrawableMissesOne(images[..n - 1], k);
    }
  }

  /** Every image is drawable only when the drawable count reaches the total. */
  lemma {:induction false} CountDrawableAll(images: seq<Img>)
    ensures CountDrawable(images) == |images| <==> forall k :: 0 <= k < |images| ==> Drawable(images[k])
    decreases |images|
  {
    var n := |images|;
    if n > 0 {
      CountDrawableAll(images[..n - 1]);
      assert forall k :: 0 <= k < n - 1 ==> images[..n - 1][k] == images[k];
    }
  }

  /** Every image is complete only when the completed count reaches the total. */
  lemma {:induction false} CountCompleteAll(images: seq<Img>)
    ensures CountComplete(images) == |images| <==> forall k :: 0 <= k < |images| ==> Complete(images[k])
    decreases |images|
  {
    var n := |images|;
    if n > 0 {
      CountCompleteAll(images[..n - 1]);
      assert forall k :: 0 <= k < n - 1 ==> images[..n - 1][k] == images[k];
    }
  }
}
