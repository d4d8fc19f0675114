/** `BackgroundRenderer` and its `render`: one tick of the clock-image
    background. The tick works out the current time slot, trims stale
    frames off the back of the cache, refills the front and, when it loaded
    anything, writes the back frame into the output buffer. `RenderSpec`
    says what a tick does; the `Renderer` class runs it in place. */
module Renderer {
  import opened Common
  import opened Clock
  import opened FrameCache
  import opened Compositor

  /** What the background shows. `Blank` is the program's `None` variant:
      nothing is drawn per tick. */
  datatype BackgroundRenderer =
    | Blank
    | ClockImage(dir: Path, fileTemplate: string, clockStep: U32, buffered: seq<Entry>,
                 rainbow: bool, color: Option<Rgb>)

  /** Why a tick failed: a frame could not be loaded, or the clock step is
      zero and the slot computation divides by it (a panic in the program). */
  datatype RenderError = Load(cause: LoadError) | DivideByZero

  datatype Outcome = Done | Failed(error: RenderError)

  /** The renderer and the output buffer after a tick, and how it ended. */
  datatype Rendered = Rendered(state: BackgroundRenderer, out: seq<Byte>, outcome: Outcome)

  /** The tint of a redraw: the rainbow hue of the current slot, or the
      fixed colour, if any. */
  function RedrawTint(rainbow: bool, color: Option<Rgb>, current: U32): Option<Rgb>
  {
    if rainbow then Some(RainbowTint(current)) else color
  }

  /** The frames a clock renderer holds have the output's size. */
  predicate Sized(r: BackgroundRenderer, width: U32, height: U32)
  {
    r.ClockImage? ==> FramesSized(r.buffered, width, height)
  }

  /** The cache a clock renderer keeps between ticks: at most
      `PreBufferedImages` frames of the output's size, each one step after
      the frame behind it. */
  predicate CacheInvariant(r: BackgroundRenderer, width: U32, height: U32)
  {
    Sized(r, width, height) &&
    (r.ClockImage? ==> |r.buffered| <= PreBufferedImages && Chained(r.buffered, r.clockStep))
  }

  /** One tick of `render` on the renderer `r` and the output bytes `out`. */
  function RenderSpec(r: BackgroundRenderer, out: seq<Byte>, now: WallClock, width: U32, height: U32,
                      load: Loader): (res: Rendered)
    requires now.Valid() && LoaderSound(load)
    requires |out| == FrameLen(width, height) && Sized(r, width, height)
    ensures |res.out| == |out|
    ensures r.Blank? ==> res == Rendered(r, out, Done)
    ensures r.ClockImage? ==> res.state.ClockImage? && res.state == r.(buffered := res.state.buffered)
    ensures res.outcome.Failed? ==> res.out == out
    ensures Sized(res.state, width, height)
  {
    match r
    case Blank => Rendered(r, out, Done)
    case ClockImage(dir, fileTemplate, step, buffered, rainbow, color) =>
      if step == 0 then Rendered(r, out, Failed(DivideByZero))
      else
        var current := ClockMillis(now, step);
        var kept := EvictStale(buffered, current, step);
        var filled := Prefetch(kept, current, step, dir, fileTemplate, width, height, load);
        PrefetchSized(kept, current, step, dir, fileTemplate, width, height, load);
        var state := r.(buffered := filled.entries);
        if filled.failure.Some? then Rendered(state, out, Failed(Load(filled.failure.value)))
        else if |filled.entries| == |kept| then Rendered(state, out, Done)
        else Rendered(state, Compose(out, Back(filled.entries).frame, RedrawTint(rainbow, color, current)), Done)
  }

  /** The deque left by the eviction loop of a tick. */
  function Kept(r: BackgroundRenderer, now: WallClock): seq<Entry>
    requires now.Valid() && r.ClockImage? && r.clockStep > 0
  {
    EvictStale(r.buffered, ClockMillis(now, r.clockStep), r.clockStep)
  }

  /** A successful tick on a cache of at most `PreBufferedImages` frames
      leaves exactly `PreBufferedImages` frames. */
  lemma RenderFillsCache(r: BackgroundRenderer, out: seq<Byte>, now: WallClock, width: U32, height: U32,
                         load: Loader)
    requires now.Valid() && LoaderSound(load)
    requires |out| == FrameLen(width, height) && Sized(r, width, height)
    requires r.ClockImage? && |r.buffered| <= PreBufferedImages
    ensures var res := RenderSpec(r, out, now, width, height, load);
            res.outcome == Done ==> |res.state.buffered| == PreBufferedImages
  {
    if r.clockStep > 0 {
      assert |Kept(r, now)| <= |r.buffered|;
    }
  }

  /** A failed load ends the tick without writing the output; the frames
      pushed before it stay at the front, in front of what eviction kept,
      the cache is still short, and the error is the loader's for the next
      slot. */
  lemma RenderLoadFailure(r: BackgroundRenderer, out: seq<Byte>, now: WallClock, width: U32, height: U32,
                          load: Loader, e: LoadError)
    requires now.Valid() && LoaderSound(load)
    requires |out| == FrameLen(width, height) && Sized(r, width, height)
    requires RenderSpec(r, out, now, width, height, load).outcome == Failed(Load(e))
    ensures var res := RenderSpec(r, out, now, width, height, load);
            var q := res.state.buffered;
            var current := ClockMillis(now, r.clockStep);
            r.ClockImage? && r.clockStep > 0 && res.out == out &&
            |q| < PreBufferedImages &&
            |Kept(r, now)| <= |q| && q[|q| - |Kept(r, now)|..] == Kept(r, now) &&
            load(ClockImagePath(r.dir, r.fileTemplate, NextSlot(q, current, r.clockStep)), width, height) == Err(e)
  {
  }

  /** The output is written exactly by a successful tick that loaded at
      least one frame, and then it is the back frame composited with the
      tint. */
  lemma RenderRedrawsOnlyAfterLoad(r: BackgroundRenderer, out: seq<Byte>, now: WallClock, width: U32,
                                   height: U32, load: Loader)
    requires now.Valid() && LoaderSound(load)
    requires |out| == FrameLen(width, height) && Sized(r, width, height)
    ensures var res := RenderSpec(r, out, now, width, height, load);
            res.out != out ==>
              r.ClockImage? && r.clockStep > 0 && res.outcome == Done &&
              |res.state.buffered| > |Kept(r, now)| &&
              res.out == Compose(out, Back(res.state.buffered).frame,
                                 RedrawTint(r.rainbow, r.color, ClockMillis(now, r.clockStep)))
    ensures var res := RenderSpec(r, out, now, width, height, load);
            r.ClockImage? && r.clockStep > 0 && res.outcome == Done &&
            |res.state.buffered| > |Kept(r, now)| ==>
              res.out == Compose(out, Back(res.state.buffered).frame,
                                 RedrawTint(r.rainbow, r.color, ClockMillis(now, r.clockStep)))
  {
  }

  /** Without a tint the redraw is a byte-exact copy of the back frame. */
  lemma RenderCopiesBackFrame(r: BackgroundRenderer, out: seq<Byte>, now: WallClock, width: U32,
                              height: U32, load: Loader)
    requires now.Valid() && LoaderSound(load)
    requires |out| == FrameLen(width, height) && Sized(r, width, height)
    requires r.ClockImage? && r.clockStep > 0 && !r.rainbow && r.color.None?
    ensures var res := RenderSpec(r, out, now, width, height, load);
            res.outcome == Done && |res.state.buffered| > |Kept(r, now)| ==>
              res.out == Back(res.state.buffered).frame
  {
  }

  /** After a successful tick the back frame is the current slot's or one
      less than a step away from it. */
  lemma RenderBackIsCurrent(r: BackgroundRenderer, out: seq<Byte>, now: WallClock, width: U32,
                            height: U32, load: Loader)
    requires now.Valid() && LoaderSound(load)
    requires |out| == FrameLen(width, height) && Sized(r, width, height)
    requires r.ClockImage? && r.clockStep > 0
    ensures var res := RenderSpec(r, out, now, width, height, load);
            res.outcome == Done ==>
              res.state.buffered != [] &&
              AbsDiff(Back(res.state.buffered).slot, ClockMillis(now, r.clockStep)) < r.clockStep
  {
    var current := ClockMillis(now, r.clockStep);
    PrefetchBackFresh(Kept(r, now), current, r.clockStep, r.dir, r.fileTemplate, width, height, load);
  }

  /** A tick keeps the cache invariant. */
  lemma RenderKeepsCacheInvariant(r: BackgroundRenderer, out: seq<Byte>, now: WallClock, width: U32,
                                  height: U32, load: Loader)
    requires now.Valid() && LoaderSound(load)
    requires |out| == FrameLen(width, height) && CacheInvariant(r, width, height)
    ensures CacheInvariant(RenderSpec(r, out, now, width, height, load).state, width, height)
  {
    if r.ClockImage? && r.clockStep > 0 {
      var step := r.clockStep;
      var current := ClockMillis(now, step);
      var kept := Kept(r, now);
      var filled := Prefetch(kept, current, step, r.dir, r.fileTemplate, width, height, load);
      var q := filled.entries;
      ChainedPrefix(r.buffered, |kept|, step);
      assert r.buffered[..|kept|] == kept;
      PushedChained(q, |q| - |kept|, current, step, r.dir, r.fileTemplate, width, height, load);
    }
  }

  /** The eviction loop of `render`: `pop_back` while the back frame is
      stale. */
  method EvictLoop(initial: seq<Entry>, current: U32, step: U32) returns (buffered: seq<Entry>)
    ensures buffered == EvictStale(initial, current, step)
  {
    buffered := initial;
    while buffered != [] && AbsDiff(Back(buffered).slot, current) >= step
      invariant EvictStale(buffered, current, step) == EvictStale(initial, current, step)
      decreases |buffered|
    {
      buffered := buffered[..|buffered| - 1];
    }
  }

  /** The fill loop of `render`: `push_front` the next slot's frame until
      the cache is full; a failed load returns early with its error. The
      flag `redraw` is raised on entering the loop body. */
  method FillLoop(kept: seq<Entry>, current: U32, step: U32, dir: Path, fileTemplate: string,
                  width: U32, height: U32, load: Loader)
    returns (buffered: seq<Entry>, failure: Option<LoadError>, redraw: bool)
    ensures Filled(buffered, failure) == Prefetch(kept, current, step, dir, fileTemplate, width, height, load)
    ensures failure.None? ==> redraw == (|buffered| != |kept|)
  {
    buffered, failure, redraw := kept, None, false;
    while |buffered| < PreBufferedImages
      invariant Prefetch(buffered, current, step, dir, fileTemplate, width, height, load)
             == Prefetch(kept, current, step, dir, fileTemplate, width, height, load)
      invariant redraw == (|buffered| != |kept|)
      invariant |kept| <= |buffered|
      decreases PreBufferedImages - |buffered|
    {
      redraw := true;
      var imageMillis := if buffered == [] then current else Advance(buffered[0].slot, step);
      var image := load(ClockImagePath(dir, fileTemplate, imageMillis), width, height);
      if image.Err? {
        failure := Some(image.error);
        return;
      }
      buffered := [Entry(imageMillis, image.value)] + buffered;
    }
  }

  /** The `renderer` variable of the event loop: `render` updates it in place. */
  class Renderer {
    var state: BackgroundRenderer

    constructor (initial: BackgroundRenderer)
      ensures state == initial
    {
      state := initial;
    }

    /** `render`: trim the cache, refill it, and redraw the output from the
        back frame when anything was loaded. */
    method Render(pixels: array<Byte>, width: U32, height: U32, now: WallClock, load: Loader)
      returns (outcome: Outcome)
      requires now.Valid() && LoaderSound(load)
      requires pixels.Length == FrameLen(width, height) && Sized(state, width, height)
      modifies this, pixels
      ensures var spec := RenderSpec(old(state), old(pixels[..]), now, width, height, load);
              state == spec.state && pixels[..] == spec.out && outcome == spec.outcome
    {
      match state
      case Blank =>
        outcome := Done;
      case ClockImage(dir, fileTemplate, step, initial, rainbow, color) =>
        if step == 0 {
          outcome := Failed(DivideByZero);
          return;
        }
        var current := ClockMillis(now, step);
        var kept := EvictLoop(initial, current, step);
        var buffered, failure, redraw := FillLoop(kept, current, step, dir, fileTemplate, width, height, load);
        state := state.(buffered := buffered);
        if failure.Some? {
          outcome := Failed(Load(failure.value));
          return;
        }
        if redraw {
          PrefetchSized(kept, current, step, dir, fileTemplate, width, height, load);
          Composite(pixels, Back(buffered).frame, RedrawTint(rainbow, color, current));
        }
        outcome := Done;
    }
  }
}
