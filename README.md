# desktop-background: the clock-image renderer and its control commands

`desktop-background` is a Wayland desktop background. A daemon started with
`start` opens a window and, every 50 ms, runs one tick of its event loop:

1. It polls a local control socket for one command.
2. It updates its `BackgroundRenderer`:
   - `stop` ends the loop;
   - `static-image` draws one picture;
   - `clock-image` selects a clock.
3. It renders a tick.

The clock renderer shows, for the current time of day, a pre-rendered frame
from `dir/<hour>/<template with %m replaced>`. Time is counted in slots of
`clock_step` milliseconds within a 12-hour cycle. The renderer keeps a deque
of up to ten loaded frames:

- stale frames are popped off the back;
- the front is refilled with the following slots;
- whenever anything was loaded, the back frame is copied into the window's
  pixel buffer, optionally tinted by a fixed colour or by a rainbow hue that
  follows the clock.

This project models and proves:

- the tick: `clock_millis`, eviction, prefetch and the redraw;
- the path of a slot's frame;
- the parsing of the `--clock-color` option;
- `Command::into_renderer`;
- the per-tick dispatch of the event loop.

Files, one module each:

| file | module | what it holds |
|---|---|---|
| `common.dfy` | `Common` | `Option`, `Result`, `Byte`, `U32` |
| `arithmetic.dfy` | `Arithmetic` | facts about Euclidean division |
| `formatting.dfy` | `Formatting` | `format!("{n}")`, `format!("{n:08}")`, `str::replace`, `str::len` (UTF-8 bytes), `str::to_uppercase` |
| `hex.dfy` | `Hex` | `u32::from_str_radix(s, 16)` |
| `clock.dfy` | `Clock` | the cycle constants, `clock_millis`, and the path built by `load_clock_image` |
| `frame_cache.dfy` | `FrameCache` | the deque, and the functions that specify the eviction and fill loops |
| `compositor.dfy` | `Compositor` | tinting, HSV to RGB, and the two in-place writes of the output buffer |
| `renderer.dfy` | `Renderer` | `BackgroundRenderer`, the specification of a tick (`RenderSpec`), its properties, and the `Renderer` class whose `Render` method runs the loops in place |
| `command.dfy` | `Command` | `Command`, the colour parser, `IntoRenderer` |
| `event_loop.dfy` | `EventLoop` | the socket poll result as an input, `Dispatch`, and the `EventLoop` class with the `AboutToWait` tick |

Modelling decisions:

- **The deque.** It is a `seq<Entry>` with the front at index 0 and the back
  at the last index. `pop_back` drops the last element and `push_front`
  prepends one.
- **Inputs.** The wall-clock time, the image loader and the result of the
  socket poll are parameters. The loader is
  `(path, width, height) -> Result<frame, error>`. `LoaderSound` states the
  one property the resize step guarantees: every frame has
  `width * height * 4` bytes.
- **Arithmetic.**
  - `(front + clock_step) % MILLIS_TOTAL` wraps at 2^32 before taking the
    remainder, as `u32` addition does in a release build.
  - `abs_diff` is taken without any wrap-around of the cycle.
  - `f32` arithmetic is exact `real` arithmetic.
  - `x as u8` truncates toward zero and saturates to 0..255.
- **A zero clock step.** `clock_millis` divides by the step, so a zero step
  panics in the program. Here the tick ends with `Failed(DivideByZero)`, and
  the event loop treats that as fatal.
- **Redraw.** The rainbow hue, like the rest of the redraw, changes only on
  ticks whose fill loop loaded a frame (`redraw`); other ticks leave the
  output buffer as it was.

## Model

| member | source | states |
|---|---|---|
| `Clock.ClockMillis` | src/render.rs:104-113 | the slot is a multiple of the step, at most the half-day milliseconds and more than them minus one step; below `MILLIS_TOTAL` (12 hours) whenever the sub-second part is under 1000 |
| `Clock.MillisOfHalfDay` | src/render.rs:107-110 | the milliseconds since the last midnight or noon, from the hour modulo 12, minute, second and sub-second millis; `HalfDayBound` bounds it |
| `Clock.RoundDown` | src/render.rs:107-112 | `(x / step) * step` is a multiple of `step` within one step below `x` |
| `Clock.HalfDayBound` | src/render.rs:107-110 | the raw half-day milliseconds are below `MILLIS_TOTAL`, or below it plus 1000 during a leap second |
| `Clock.HourBucket` | src/render.rs:125 | `millis / MILLIS_PER_HOUR` is the hour containing the slot, and lies in 0..=11 for slots of the cycle |
| `Clock.JoinPath` | src/render.rs:122-124 | `PathBuf::push` of a relative path: the result is the directory followed by the path, with at most one '/' put between; which of the two is decided by the body (a '/' unless the directory is empty or already ends in one) |
| `Clock.ClockImageFile` | src/render.rs:126 | the file name is the template with every "%m" replaced by the eight-digit slot; `ClockImageFileSpec` states its properties |
| `Clock.ClockImagePath` | src/render.rs:122-127 | the path is the directory joined with the hour bucket, '/', and the file name; `ClockImagePathExample` shows one |
| `Clock.ClockImageFileSpec` | src/render.rs:126 | after the replacement no "%m" is left; a template without "%m" is used unchanged; the padded number reads back as the slot, in exactly eight digits for slots of the cycle |
| `Clock.ReplaceSplice` | src/render.rs:126 | a template of two '%'-free parts around one "%m" gets exactly the padded number in its place |
| `Clock.ClockImagePathExample` | src/render.rs:122-127 | slot 12 345 700 with template `frame_%m.png` is loaded from `dir/3/frame_12345700.png` |
| `Clock.ZeroPadExample` | src/render.rs:126 | 12 345 700 is written `12345700` |
| `Clock.DecimalExample` | src/render.rs:125-126 | `format!` writes 12 345 700 as the digits `12345700` |
| `Clock.DecimalAppend` | src/render.rs:125-126 | the decimal form of `10 n + d` is that of `n` followed by digit `d` |
| `Clock.ClockImageFileExample` | src/render.rs:126 | template `frame_%m.png` at slot 12 345 700 gives `frame_12345700.png` |
| `Clock.ReplaceExample` | src/render.rs:126 | replacing "%m" in `frame_%m.png` by `12345700` gives `frame_12345700.png` |
| `Clock.HourExample` | src/render.rs:125 | slot 12 345 700 lies in hour 3 |
| `Clock.JoinExample` | src/render.rs:122-124 | `dir` joined with `3/frame_12345700.png` gets one separator |
| `Formatting.DecimalRoundTrip` | src/render.rs:125-126 | reading back the decimal digits of `n` gives `n` |
| `Formatting.DecimalLength` | src/render.rs:126 | `n` has at most `k` digits exactly when `n < 10^k` |
| `Formatting.LeadingZeros` | src/render.rs:126 | zero padding does not change the value read back |
| `Formatting.ZeroPad8RoundTrip` | src/render.rs:126 | `{millis:08}` reads back as `millis`, has at least eight digits, and exactly eight below 10^8 |
| `Formatting.ReplaceAbsent` | src/render.rs:126 | `str::replace` with no occurrence of the pattern returns the string unchanged |
| `Formatting.ReplaceHead` | src/render.rs:126 | the first character of a replacement result is the first of `rep` or of the input |
| `Formatting.TokenInConcat` | src/render.rs:126 | a "%m" in a concatenation lies in one part or straddles the seam |
| `Formatting.TokenFullyReplaced` | src/render.rs:126 | replacing "%m" by digits leaves no "%m" |
| `Formatting.ReplaceSkip` | src/render.rs:126 | a character that cannot start the pattern is copied |
| `Formatting.ReplaceKeep` | src/render.rs:126 | a prefix free of the pattern's first character passes through unchanged |
| `Formatting.Replace` | src/render.rs:126 | `str::replace`: a left-to-right scan replacing each non-overlapping occurrence; `ReplaceAbsent`, `ReplaceSkip`, `ReplaceKeep` and `TokenFullyReplaced` characterise it |
| `Formatting.Decimal` | src/render.rs:125 | `format!("{n}")` is a non-empty string of decimal digits |
| `Formatting.ZeroPad8` | src/render.rs:126 | `format!("{n:08}")` consists of decimal digits |
| `Formatting.Utf8Len` | src/main.rs:108 | `str::len` counts at least one byte per character |
| `Formatting.ToUpper` | src/main.rs:105 | `to_uppercase` character by character through `UpperChar`; `Command.RainbowWord` states which strings it maps to "RAINBOW" |
| `FrameCache.EvictStale` | src/render.rs:44-49 | what is left is a prefix of the deque (order and contents kept), its back, if any, is less than a step from the current slot, and every popped entry was stale |
| `FrameCache.AbsDiff` | src/render.rs:46 | `u32::abs_diff`, the distance between two slots without wrap-around |
| `FrameCache.Stale` | src/render.rs:46 | an entry is evicted when its slot is a step or more from the current slot |
| `Renderer.EvictLoop` | src/render.rs:44-49 | the `pop_back` loop leaves exactly `EvictStale` of the deque |
| `FrameCache.Advance` | src/render.rs:56 | the next slot, computed with a wrapping `u32` add and `% MILLIS_TOTAL`, lies within the cycle |
| `FrameCache.NextSlot` | src/render.rs:54-57 | the slot to load: the current slot for an empty deque, else one step after the front; `PushedChained` states the chain it builds |
| `FrameCache.Prefetch` | src/render.rs:51-62 | the old deque stays at the back; each pushed entry holds the slot chosen from the entries behind it (the current slot for an empty deque, else one step after the front) and the frame loaded for it; on success the deque holds 10 entries, or its old length if longer; on a failed load it holds fewer than 10, and the error is the loader's for the next slot |
| `Renderer.FillLoop` | src/render.rs:51-62 | the `push_front` loop ends with exactly `Prefetch`'s deque and failure, and on success raises `redraw` exactly when it pushed something |
| `FrameCache.PushOneMore` | src/render.rs:54-61 | one push extends the pushed prefix by one entry |
| `FrameCache.PrefetchSized` | src/render.rs:59-61 | with a sound loader, every frame in the filled deque has `width * height * 4` bytes |
| `FrameCache.PushedChained` | src/render.rs:54-57 | pushed entries continue the chain, each one step after the one behind it; the first pushed into an empty deque is the current slot |
| `FrameCache.PrefetchBackFresh` | src/render.rs:44-62 | after a complete fill, the back is less than a step from the current slot |
| `FrameCache.ChainedPrefix` | src/render.rs:44-49 | popping the back keeps the deque chained |
| `FrameCache.ModAddLeft` | src/render.rs:56 | taking the remainder before adding the next step does not change the slot |
| `FrameCache.ChainedDistance` | src/render.rs:54-57 | in a chained deque without `u32` wrap, entry `i` is `j - i` steps after entry `j`, modulo the cycle |
| `FrameCache.ChainedSlotsDistinct` | src/render.rs:54-57 | while the deque spans less than one cycle, no two entries share a slot |
| `Compositor.Scale` | src/render.rs:89 | `(src as f32 * c) as u8` never brightens for a factor in [0, 1] and keeps the byte for factor 1 |
| `Compositor.FloorAtMost` | src/render.rs:89 | truncating a value at most `n` gives at most `n` |
| `Compositor.ScaleDown` | src/render.rs:89 | a factor in [0, 1] does not enlarge a non-negative value |
| `Compositor.Compose` | src/render.rs:79-96 | the written buffer keeps the output's length |
| `Compositor.TintByte` | src/render.rs:86-90 | byte `idx` of a tinted redraw: 255 at every fourth byte, else the frame byte scaled by channel `idx % 4`; `TintNeverBrightens` and `WhiteTintOnlySetsAlpha` state its properties |
| `Compositor.WhiteTintOnlySetsAlpha` | src/render.rs:79-91 | a white tint keeps every colour byte and forces every alpha byte to 255 |
| `Compositor.TintNeverBrightens` | src/render.rs:79-91 | under a tint in [0, 1], every zipped alpha byte becomes 255 and no colour byte gets brighter |
| `Compositor.TintInto` | src/render.rs:79-91 | the `for_each` loop: each zipped index gets 255 at every fourth byte and the scaled frame byte elsewhere; bytes past the shorter buffer are unchanged |
| `Compositor.CopyFromSlice` | src/render.rs:92-96 | the output becomes a byte-exact copy of the frame |
| `Compositor.Composite` | src/render.rs:79-96 | the redraw writes the tinted or verbatim frame as `Compose` says |
| `Compositor.HueToRgb` | src/render.rs:65-74 | HSV with saturation and value one gives channels in [0, 1] |
| `Compositor.RainbowTint` | src/render.rs:65-74 | the hue is the slot's share of the cycle in degrees; the tint is in [0, 1] |
| `Compositor.RainbowHueExamples` | src/render.rs:65-74 | slot 0 is pure red, half the cycle is cyan |
| `Renderer.RedrawTint` | src/render.rs:65-77 | the tint of a redraw: the rainbow hue of the current slot, else the fixed colour, if any; `RenderRedrawsOnlyAfterLoad` states where it is used |
| `Renderer.RenderSpec` | src/render.rs:30-101 | one tick: the `None` renderer changes nothing; only the deque of a clock renderer changes; a failed tick leaves the output as it was; frames keep the output's size |
| `Renderer.Renderer.Render` | src/render.rs:30-101 | running the loops in place leaves the renderer, the output bytes and the outcome exactly as `RenderSpec` gives them |
| `Renderer.Renderer.constructor` | src/main.rs:177 | the renderer variable holds the given renderer |
| `Renderer.RenderFillsCache` | src/render.rs:51-62 | a successful tick on a deque of at most 10 entries leaves exactly 10 |
| `Renderer.RenderLoadFailure` | src/render.rs:59-61 | a failed load does not touch the output; the entries pushed before it stay in front of what eviction kept; the deque holds fewer than 10; the error is the loader's for the next slot |
| `Renderer.RenderRedrawsOnlyAfterLoad` | src/render.rs:42-97 | the output changes only in a successful tick that pushed an entry; conversely every successful tick that pushed an entry writes the back frame composited with the rainbow tint of the current slot or the fixed colour |
| `Renderer.RenderCopiesBackFrame` | src/render.rs:92-96 | with no colour and no rainbow, a redraw makes the output a copy of the back frame |
| `Renderer.RenderBackIsCurrent` | src/render.rs:44-62 | after a successful tick the deque is non-empty and its back is less than a step from the current slot |
| `Renderer.RenderKeepsCacheInvariant` | src/render.rs:44-62 | a tick keeps the deque at most 10 long, chained, and of frames the output's size |
| `Hex.HexValue` | src/main.rs:114 | a hex string of `k` digits denotes a value below 16^k |
| `Hex.FromStrRadix16` | src/main.rs:114 | `u32::from_str_radix(s, 16)`: `Empty` for "", an optional leading '+', then the checked digit loop; `FromStrRadix16Spec` states what it accepts |
| `Hex.HexDigitValue` | src/main.rs:114 | a hex digit's value is below 16 |
| `Hex.Accumulate` | src/main.rs:114 | the digit loop never reports `Empty` |
| `Hex.HexValueCons` | src/main.rs:114 | a leading digit adds its value times 16 to the power of the rest's length |
| `Hex.AccumulateValue` | src/main.rs:114 | digits whose value fits in `u32` fold to that value |
| `Hex.AccumulateRejects` | src/main.rs:114 | a string with a non-hex character is refused |
| `Hex.FromStrRadix16Spec` | src/main.rs:114 | `Empty` exactly for the empty string; one to seven hex digits after an optional '+' parse to their value; an invalid or empty digit string is refused |
| `Hex.Pow16Monotone` | src/main.rs:114 | powers of 16 grow with the exponent |
| `Command.Channels` | src/main.rs:117-121 | the three bytes `(p>>16)&0xFF`, `(p>>8)&0xFF`, `p&0xFF` pack back into `p` when `p < 2^24` |
| `Command.ChannelsRepack` | src/main.rs:117-121 | shifting and masking below 2^24 loses nothing |
| `Command.Normalize` | src/main.rs:118-120 | `byte / 255.0` gives factors in [0, 1], and white gives factor one |
| `Command.ParseClockColor` | src/main.rs:103-126 | the `clock_color` branches: absent, "RAINBOW" in any case, over six bytes, then the hex parse; `ParseClockColorSpec` states them |
| `Command.ParseClockColorSpec` | src/main.rs:103-126 | absent gives no tint; "RAINBOW" in any case gives the rainbow; over six bytes is refused before parsing; within six bytes it is accepted exactly when the digits after an optional '+' are non-empty hex, giving that value's bytes; "" is refused as `Empty` |
| `Command.AsciiLen` | src/main.rs:108 | an ASCII string's byte length is its character count |
| `Command.ShortColorExample` | src/main.rs:114-121 | "F" gives the colour (0, 0, 15) |
| `Command.RainbowWord` | src/main.rs:105 | a string upper-cases to "RAINBOW" exactly when it has seven characters, each the upper- or lower-case letter of "RAINBOW" or, third, the dotless 'ı' |
| `Command.RainbowWordExamples` | src/main.rs:105-106 | "rainbow" and "RAıNBOW" (dotless i) both select the rainbow |
| `Command.TooLongExample` | src/main.rs:108-112 | "1234567" is refused for its length |
| `Command.InvalidDigitExample` | src/main.rs:114 | "GGGGGG" is refused as an invalid digit |
| `Command.PlusSignExample` | src/main.rs:114-121 | "+FF" is accepted as (0, 0, 255) |
| `Command.IntoRenderer` | src/main.rs:79-139 | `into_renderer` per variant; `IntoRendererSpec` states what each becomes |
| `Command.IntoRendererSpec` | src/main.rs:85-139 | `Start` and `Stop` give `None`; a clock command fails exactly when its colour does and otherwise passes dir, template and step through with an empty deque and the `rainbow` and `color` that `ParseClockColor` returned (no tint when the colour is absent); a static image fails exactly when its load does and otherwise draws the loaded frame, of the output's size, and gives `None` |
| `EventLoop.DispatchSpec` | src/main.rs:204-232 | `WouldBlock` changes nothing; `Stop` asks to exit and keeps the renderer; accept and decode errors ask to exit and keep it; an `into_renderer` error asks to exit and resets it to `None`; another command replaces it; exit is asked exactly in those cases |
| `EventLoop.StartResetsRenderer` | src/main.rs:210-218 | a `Start` received while running resets the renderer to `None` without exiting |
| `EventLoop.Dispatch` | src/main.rs:204-232 | the `match socket.accept()` of a tick; `DispatchSpec` states each arm |
| `EventLoop.DispatchKeepsCacheInvariant` | src/main.rs:204-232 | the socket half of a tick keeps the renderer's deque invariant, and a drawn static image has the output's size |
| `EventLoop.EventLoop.constructor` | src/main.rs:177-195 | the loop starts with the `None` renderer, an output of the window's size, and no exit requested |
| `EventLoop.EventLoop.OnAboutToWait` | src/main.rs:203-239 | the tick applies `Dispatch`, copies a static image, then renders even after an exit request; exit is requested by the dispatch or by a failed render, and stays requested |
| `EventLoop.EventLoop.OnEvent` | src/main.rs:198-246 | a close request asks to exit and keeps the renderer and output; other events change neither the renderer, the output nor the exit flag; `AboutToWait` leaves the renderer, output and exit flag that `Dispatch`, the static blit and `RenderSpec` give; exit, once asked, stays asked |

## Left out

- Window, surface, GPU and vsync setup through winit, pixels and wgpu, and `pixels.render()`: these are external UI plumbing. The output is an array of bytes.
- The local socket (bind, connect, accept) and bincode decoding: the poll's result is an input (`Poll`). The client side of `main`, which sends a command, is not modelled.
- clap argument parsing, including the default `clock_step` of 100.
- `image::open` and `imageops::resize`: they are the `Loader` parameter. Only their size guarantee (`LoaderSound`) is assumed.
- `chrono::Local::now()`: its fields are the `WallClock` parameter.
- The 50 ms `WaitUntil` scheduling and `eprintln!` messages.
- Compositor.Scale: `f32` rounding is not modelled. The `/ 255.0` normalisation, the product in the scaling and the hue are exact reals. A byte that `f32` would round across an integer boundary may differ by one.
- The HSV to RGB conversion is the standard formula, taken modulo 360 degrees. The `color` crate is not part of this model.
- Formatting.ToUpper: maps only the characters whose upper case is an ASCII letter ('a' to 'z', 'ı' and 'ſ'). Every other character is kept. This decides the comparison with "RAINBOW" exactly as `str::to_uppercase` does, but it is not a full Unicode case mapping.
- Panics are not modelled as process aborts:
  - the zero-step division panic in `clock_millis` becomes `Failed(DivideByZero)`;
  - the `u32` overflow panic of a debug build is not modelled: the addition in `Advance` wraps as in a release build;
  - the `copy_from_slice` length panic is excluded: `LoaderSound` and the output's size give frames of equal length.
- Clock.ClockMillis: requires a non-zero step, because the program divides by it. The renderer checks the step before calling it.
- FrameCache.ChainedSlotsDistinct: assumes the deque spans less than one cycle and that no `u32` wrap-around occurs. The program does not bound `clock_step`.
