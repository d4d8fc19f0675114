/** The event loop of `run`: on every `AboutToWait` event it polls the
    control socket once, applies what arrived to the renderer, and then
    renders a tick; a close request or any failure asks the loop to exit.
    The socket, the decoder and the window are outside the model: what the
    poll produced is an input. */
module EventLoop {
  import opened Common
  import opened Clock
  import opened FrameCache
  import opened Compositor
  import opened Command
  import Renderer

  /** What one poll of the control socket produced: no pending connection,
      an accept error of another kind, a message that does not decode as a
      command, or a command. */
  datatype Poll = WouldBlock | AcceptFailed | Undecodable | Received(command: Command)

  /** The window events the loop distinguishes. */
  datatype Event = CloseRequested | AboutToWait(poll: Poll, now: WallClock) | Other

  /** The outcome of the socket half of a tick: the renderer from then on,
      whether exit was requested, and the frame a static image wrote. */
  datatype Dispatched = Dispatched(renderer: Renderer.BackgroundRenderer, exit: bool, blit: Option<Frame>)

  /** The `match socket.accept()` of a tick. */
  function Dispatch(r: Renderer.BackgroundRenderer, poll: Poll, width: U32, height: U32, load: Loader): Dispatched
  {
    match poll
    case WouldBlock => Dispatched(r, false, None)
    case AcceptFailed => Dispatched(r, true, None)
    case Undecodable => Dispatched(r, true, None)
    case Received(cmd) =>
      if cmd.Stop? then Dispatched(r, true, None)
      else
        match IntoRenderer(cmd, width, height, load)
        case Ok(c) => Dispatched(c.renderer, false, c.blit)
        case Err(_) => Dispatched(Renderer.Blank, true, None)
  }

  /** How a tick reacts to the socket. Nothing pending changes nothing.
      `Stop` asks to exit and keeps the renderer. A command that cannot be
      converted asks to exit and leaves the blank renderer. Accept and
      decode errors ask to exit and keep the renderer. Any other command
      replaces the renderer and does not ask to exit. Exit is asked for in
      exactly these failing cases and on `Stop`. */
  lemma DispatchSpec(r: Renderer.BackgroundRenderer, poll: Poll, width: U32, height: U32, load: Loader)
    ensures poll == WouldBlock ==> Dispatch(r, poll, width, height, load) == Dispatched(r, false, None)
    ensures poll == Received(Stop) ==> Dispatch(r, poll, width, height, load) == Dispatched(r, true, None)
    ensures poll.AcceptFailed? || poll.Undecodable? ==> Dispatch(r, poll, width, height, load) == Dispatched(r, true, None)
    ensures poll.Received? && !poll.command.Stop? && IntoRenderer(poll.command, width, height, load).Err? ==>
              Dispatch(r, poll, width, height, load) == Dispatched(Renderer.Blank, true, None)
    ensures poll.Received? && !poll.command.Stop? && IntoRenderer(poll.command, width, height, load).Ok? ==>
              var c := IntoRenderer(poll.command, width, height, load).value;
              Dispatch(r, poll, width, height, load) == Dispatched(c.renderer, false, c.blit)
    ensures Dispatch(r, poll, width, height, load).exit <==>
              poll.AcceptFailed? || poll.Undecodable? ||
              (poll.Received? && (poll.command.Stop? || IntoRenderer(poll.command, width, height, load).Err?))
  {
  }

  /** A `Start` command received while running replaces the renderer with
      the blank one, discarding a clock and its cache, without exiting. */
  lemma StartResetsRenderer(r: Renderer.BackgroundRenderer, width: U32, height: U32, load: Loader,
                            w: U32, h: U32, windowClass: string)
    ensures Dispatch(r, Received(Start(w, h, windowClass)), width, height, load)
         == Dispatched(Renderer.Blank, false, None)
  {
  }

  /** The socket half of a tick keeps the renderer's cache invariant, and a
      frame it writes has the output's size. */
  lemma DispatchKeepsCacheInvariant(r: Renderer.BackgroundRenderer, poll: Poll, width: U32, height: U32,
                                    load: Loader)
    requires LoaderSound(load) && Renderer.CacheInvariant(r, width, height)
    ensures var d := Dispatch(r, poll, width, height, load);
            Renderer.CacheInvariant(d.renderer, width, height) &&
            (d.blit.Some? ==> |d.blit.value| == FrameLen(width, height))
  {
    if poll.Received? {
      IntoRendererSpec(poll.command, width, height, load);
    }
  }

  /** The state `run` keeps across events: the renderer, the output pixel
      buffer of the window's size, and whether exit was requested. */
  class EventLoop {
    const renderer: Renderer.Renderer
    const pixels: array<Byte>
    const width: U32
    const height: U32
    var exiting: bool

    ghost predicate Valid()
      reads this, renderer
    {
      pixels.Length == FrameLen(width, height) &&
      Renderer.CacheInvariant(renderer.state, width, height)
    }

    /** `run` starts with the blank renderer and an output of the requested
        size. */
    constructor (width: U32, height: U32)
      ensures Valid() && fresh(renderer) && fresh(pixels)
      ensures this.width == width && this.height == height
      ensures renderer.state == Renderer.Blank && !exiting
    {
      this.width, this.height := width, height;
      renderer := new Renderer.Renderer(Renderer.Blank);
      pixels := new Byte[FrameLen(width, height)];
      exiting := false;
    }

    /** The `AboutToWait` arm: apply the poll result, copy a static image
        into the output, then render a tick, which happens even when exit
        was just requested. A failed tick requests exit as well. */
    method OnAboutToWait(poll: Poll, now: WallClock, load: Loader)
      requires Valid() && now.Valid() && LoaderSound(load)
      modifies this, renderer, pixels
      ensures Valid()
      ensures var d := Dispatch(old(renderer.state), poll, width, height, load);
              var drawn := if d.blit.Some? then d.blit.value else old(pixels[..]);
              var spec := Renderer.RenderSpec(d.renderer, drawn, now, width, height, load);
              renderer.state == spec.state && pixels[..] == spec.out &&
              exiting == (old(exiting) || d.exit || spec.outcome.Failed?)
    {
      var d := Dispatch(renderer.state, poll, width, height, load);
      DispatchKeepsCacheInvariant(renderer.state, poll, width, height, load);
      if d.exit {
        exiting := true;
      }
      renderer.state := d.renderer;
      if d.blit.Some? {
        CopyFromSlice(pixels, d.blit.value);
      }
      ghost var drawn := pixels[..];
      Renderer.RenderKeepsCacheInvariant(d.renderer, drawn, now, width, height, load);
      var outcome := renderer.Render(pixels, width, height, now, load);
      if outcome.Failed? {
        exiting := true;
      }
    }

    /** One event of the loop: a close request asks to exit, `AboutToWait`
        runs a tick, anything else is ignored; only a tick writes the
        output. */
    method OnEvent(event: Event, load: Loader)
      requires Valid() && LoaderSound(load)
      requires event.AboutToWait? ==> event.now.Valid()
      modifies this, renderer, pixels
      ensures Valid()
      ensures event == CloseRequested ==> exiting && renderer.state == old(renderer.state)
      ensures event == Other ==> exiting == old(exiting) && renderer.state == old(renderer.state)
      ensures !event.AboutToWait? ==> pixels[..] == old(pixels[..])
      ensures event.AboutToWait? ==>
                var d := Dispatch(old(renderer.state), event.poll, width, height, load);
                var drawn := if d.blit.Some? then d.blit.value else old(pixels[..]);
                var spec := Renderer.RenderSpec(d.renderer, drawn, event.now, width, height, load);
                renderer.state == spec.state && pixels[..] == spec.out &&
                exiting == (old(exiting) || d.exit || spec.outcome.Failed?)
      ensures old(exiting) ==> exiting
    {
      match event
      case CloseRequested =>
        exiting := true;
      case AboutToWait(poll, now) =>
        OnAboutToWait(poll, now, load);
      case Other =>
    }
  }
}
