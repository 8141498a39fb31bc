/**
 * The scroll-driven walking cat (`setupCatAnimation`). A scroll update records
 * how far the scroll moved and which way. The next display-refresh tick moves
 * the fractional frame index forward by `|delta| * 0.05` frames, modulo the
 * frame count, and draws frame `floor(frameIndex) % 10`, mirrored when the
 * last move was forward. Both pages keep the same state. They differ only in
 * when a frame counts as drawable and in whether a frame is drawn once at setup.
 */
module Sprite {
  import opened Wrappers
  import opened Pages
  import JsNumber

  const FrameCount: nat := 10

  /** Frames advanced per unit of scroll: 0.05, the exact rational 1/20. */
  const Speed: real := 0.05

  /** The closure state of `setupCatAnimation`. */
  datatype Animator = Animator(
    frameIndex: real,
    lastScroll: real,
    flipped: bool,
    needsRender: bool,
    targetDelta: real
  )

  /** The state right after setup. */
  const Start: Animator := Animator(0.0, 0.0, false, false, 0.0)

  function Abs(x: real): real
  {
    if x < 0.0 then -x else x
  }

  /**
   * `updateCatOnScroll` when the scroll trigger reports position `scrollPos`.
   * It records the move, its direction and the new position, and asks for a
   * render. The frame index is left alone.
   */
  function OnScroll(a: Animator, scrollPos: real): (b: Animator)
    ensures b.targetDelta == scrollPos - a.lastScroll
    ensures b.flipped <==> scrollPos > a.lastScroll
    ensures b.lastScroll == scrollPos && b.needsRender
    ensures b.frameIndex == a.frameIndex
  {
    var delta := scrollPos - a.lastScroll;
    a.(targetDelta := delta, flipped := delta > 0.0, lastScroll := scrollPos, needsRender := true)
  }

  /**
   * `(frameIndex + Math.abs(targetDelta) * 0.05) % CAT_FRAME_COUNT`, in exact
   * arithmetic: the moved index less a whole number of ten-frame cycles,
   * which for a non-negative index lands in [0, 10).
   */
  function Advance(index: real, delta: real): (r: real)
    ensures 0.0 <= index ==> 0.0 <= r < 10.0
    ensures WholeCycles(index + Abs(delta) * Speed - r)
  {
    JsNumber.RemReal(index + Abs(delta) * Speed, 10.0)
  }

  /** `d` is a whole number of ten-frame cycles. */
  predicate WholeCycles(d: real)
  {
    (d / 10.0).Floor as real == d / 10.0
  }

  /** The range and the whole cycles pin the advanced index down: no other value has both. */
  lemma AdvanceDetermined(index: real, delta: real, r: real)
    requires 0.0 <= index
    requires 0.0 <= r < 10.0 && WholeCycles(index + Abs(delta) * Speed - r)
    ensures r == Advance(index, delta)
  {
    var v, a := index + Abs(delta) * Speed, Advance(index, delta);
    var n, k := ((v - r) / 10.0).Floor, ((v - a) / 10.0).Floor;
    assert r - a == 10.0 * (k - n) as real;
  }

  /** `Math.floor(frameIndex) % CAT_FRAME_COUNT`: which image `render` picks. */
  function Slot(a: Animator): (k: int)
    ensures 0.0 <= a.frameIndex ==> 0 <= k < FrameCount
    ensures 0.0 <= a.frameIndex < 10.0 ==> k == a.frameIndex.Floor
  {
    JsNumber.RemInt(a.frameIndex.Floor, FrameCount)
  }

  /** What the page knows of a loaded frame image. */
  datatype FrameImage = FrameImage(complete: bool, naturalWidth: nat)

  /**
   * `render`'s guard: the jQuery page draws any complete image. The plain page
   * also refuses an image whose natural width is 0.
   */
  predicate Drawable(page: Page, img: FrameImage)
  {
    match page
    case JQueryPage => img.complete
    case PlainPage => img.complete && img.naturalWidth != 0
  }

  /** One drawing of a frame onto every cat canvas. */
  datatype Draw = Draw(frame: nat, mirrored: bool)

  /**
   * `render`: draws the selected image, mirrored when `flipped`, or does
   * nothing when the image is missing or not drawable.
   */
  function Render(page: Page, a: Animator, images: seq<FrameImage>): (d: Option<Draw>)
    ensures d.Some? ==> d.value.frame < |images| && Drawable(page, images[d.value.frame])
    ensures d.Some? ==> d.value.frame == Slot(a) && d.value.mirrored == a.flipped
    ensures d.None? ==> !(0 <= Slot(a) < |images| && Drawable(page, images[Slot(a)]))
  {
    var k := Slot(a);
    if 0 <= k < |images| && Drawable(page, images[k]) then Some(Draw(k, a.flipped)) else None
  }

  /** The plain page draws a subset of what the jQuery page draws, and the same thing when both draw. */
  lemma PlainGuardIsStricter(a: Animator, images: seq<FrameImage>)
    ensures Render(PlainPage, a, images).Some? ==> Render(JQueryPage, a, images) == Render(PlainPage, a, images)
  {
  }

  /** The result of one refresh tick. */
  datatype Step = Step(next: Animator, drawn: Option<Draw>)

  /**
   * One pass of `rafLoop`. When a render is pending the frame index advances,
   * the new frame is rendered and the flag clears. Otherwise nothing happens.
   */
  function Tick(page: Page, a: Animator, images: seq<FrameImage>): (s: Step)
    ensures !a.needsRender ==> s == Step(a, None)
    ensures a.needsRender ==> !s.next.needsRender
    ensures s.next.lastScroll == a.lastScroll && s.next.flipped == a.flipped && s.next.targetDelta == a.targetDelta
    ensures a.needsRender ==> s.next.frameIndex == Advance(a.frameIndex, a.targetDelta)
    ensures a.needsRender && 0.0 <= a.frameIndex ==> 0.0 <= s.next.frameIndex < 10.0
    ensures a.needsRender ==> s.drawn == Render(page, s.next, images)
  {
    if !a.needsRender then Step(a, None)
    else
      var b := a.(frameIndex := Advance(a.frameIndex, a.targetDelta), needsRender := false);
      Step(b, Render(page, b, images))
  }

  /**
   * Setup: the plain page renders once before its loop starts. The jQuery
   * page draws nothing until the first scroll.
   */
  function Setup(page: Page, images: seq<FrameImage>): (s: Step)
    ensures s.next == Start
    ensures page == JQueryPage ==> s.drawn == None
    ensures page == PlainPage ==> s.drawn == Render(PlainPage, Start, images)
  {
    match page
    case JQueryPage => Step(Start, None)
    case PlainPage => Step(Start, Render(PlainPage, Start, images))
  }

  /** A second tick with no scroll in between does nothing. */
  lemma TickSettles(page: Page, a: Animator, images: seq<FrameImage>)
    ensures var s := Tick(page, a, images);
      Tick(page, s.next, images) == Step(s.next, None)
  {
  }

  /**
   * Scroll updates between two ticks coalesce: only the last move advances the
   * frame, and the moves before it are lost.
   */
  lemma ScrollsCoalesce(page: Page, a: Animator, p1: real, p2: real, images: seq<FrameImage>)
    ensures Tick(page, OnScroll(OnScroll(a, p1), p2), images).next.frameIndex == Advance(a.frameIndex, p2 - p1)
  {
  }

  /** What happens to the cat: a scroll report or a display refresh. */
  datatype Event = Scrolled(pos: real) | Refresh

  /** Where a sequence of events leaves the animator, and the frames it drew on the way. */
  datatype Trace = Trace(last: Animator, draws: seq<Draw>)

  function Run(page: Page, a: Animator, images: seq<FrameImage>, events: seq<Event>): Trace
    decreases |events|
  {
    if |events| == 0 then Trace(a, [])
    else
      match events[0]
      case Scrolled(p) => Run(page, OnScroll(a, p), images, events[1..])
      case Refresh =>
        var s := Tick(page, a, images);
        var t := Run(page, s.next, images, events[1..]);
        match s.drawn
        case Some(d) => Trace(t.last, [d] + t.draws)
        case None => t
  }

  /**
   * The animator's invariant: the frame index lies in [0, 10) and the cat
   * faces forward exactly when the last recorded move was forward.
   */
  predicate Coherent(a: Animator)
  {
    0.0 <= a.frameIndex < 10.0 && (a.flipped <==> a.targetDelta > 0.0)
  }

  /** Every draw names one of the ten frames. */
  predicate GoodDraws(draws: seq<Draw>)
  {
    forall i :: 0 <= i < |draws| ==> draws[i].frame < FrameCount
  }

  /**
   * For every sequence of scroll reports and ticks the invariant holds
   * throughout, and every frame drawn is one of the ten.
   */
  lemma {:induction false} RunKeepsCoherent(page: Page, a: Animator, images: seq<FrameImage>, events: seq<Event>)
    requires Coherent(a)
    ensures Coherent(Run(page, a, images, events).last)
    ensures GoodDraws(Run(page, a, images, events).draws)
    decreases |events|
  {
    if |events| > 0 {
      match events[0]
      case Scrolled(p) =>
        RunKeepsCoherent(page, OnScroll(a, p), images, events[1..]);
      case Refresh =>
        var s := Tick(page, a, images);
        RunKeepsCoherent(page, s.next, images, events[1..]);
    }
  }

  lemma StartIsCoherent()
    ensures Coherent(Start)
  {
  }

  /**
   * The integer model. When scroll positions are whole numbers, the frame
   * index is always a whole number of twentieths of a frame, `pos / 20`. A tick
   * moves `pos` to `(pos + |delta|) % 200` and draws frame `pos / 20`.
   */
  function TwentiethsStep(pos: nat, delta: int): (r: nat)
    ensures r < 200
  {
    (pos + (if delta < 0 then -delta else delta)) % 200
  }

  lemma TwentiethsAgree(page: Page, a: Animator, pos: nat, delta: int, images: seq<FrameImage>)
    requires pos < 200 && a.frameIndex == pos as real / 20.0
    requires a.targetDelta == delta as real && a.needsRender
    ensures Tick(page, a, images).next.frameIndex == TwentiethsStep(pos, delta) as real / 20.0
    ensures Slot(Tick(page, a, images).next) == TwentiethsStep(pos, delta) / 20
  {
    var n: nat := pos + (if delta < 0 then -delta else delta);
    var v := a.frameIndex + Abs(a.targetDelta) * Speed;
    assert v == n as real / 20.0;
    var q := n / 200;
    var r := n % 200;
    assert n == 200 * q + r;
    FloorOfRatio(n, 200);
    assert (v / 10.0).Floor == q by {
      assert v / 10.0 == n as real / 200.0;
    }
    assert JsNumber.Trunc(v / 10.0) == q;
    assert Advance(a.frameIndex, a.targetDelta) == r as real / 20.0;
    FloorOfRatio(r, 20);
  }

  /** The floor of `n / k` computed in exact arithmetic is integer division. */
  lemma FloorOfRatio(n: nat, k: nat)
    requires k == 20 || k == 200
    ensures (n as real / k as real).Floor == n / k
  {
    var q, r := n / k, n % k;
    assert n == k * q + r;
    assert q as real <= n as real / k as real < q as real + 1.0;
  }

  /**
   * From rest, a 500-unit scroll followed by one tick moves the cat
   * 500 * 0.05 = 25 frames. That is two and a half cycles, so the cat lands
   * on frame 5, facing forward.
   */
  lemma FiveHundredForward(page: Page, images: seq<FrameImage>)
    ensures var t := Run(page, Start, images, [Scrolled(500.0), Refresh]);
      t.last.frameIndex == 5.0 && t.last.flipped && t.last.targetDelta == 500.0 && Slot(t.last) == 5
  {
    var a := OnScroll(Start, 500.0);
    TwentiethsAgree(page, a, 0, 500, images);
    assert [Scrolled(500.0), Refresh][1..] == [Refresh];
  }
}
