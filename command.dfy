/** The control commands of the program and `Command::into_renderer`: how a
    received command becomes the next background renderer, including the
    parsing of the clock colour option. */
module Command {
  import opened Common
  import opened Arithmetic
  import opened Formatting
  import opened Hex
  import opened Clock
  import opened FrameCache
  import opened Compositor
  import Renderer

  /** The subcommands, as they travel over the control socket. */
  datatype Command =
    | Start(width: U32, height: U32, windowClass: string)
    | Stop
    | StaticImage(path: Path)
    | ClockImage(dir: Path, fileTemplate: string, clockStep: U32, clockColor: Option<string>)

  /** Why a command could not be turned into a renderer: a colour string
      over six bytes, a colour that is not a hex number, or an image that
      could not be loaded. */
  datatype CommandError = ColorFormat | ParseInt(kind: IntErrorKind) | Image(cause: LoadError)

  /** The three bytes of a parsed colour. */
  datatype Rgb8 = Rgb8(r: Byte, g: Byte, b: Byte)

  /** `(p >> 16) & 0xFF`, `(p >> 8) & 0xFF` and `p & 0xFF`. Below 2^24 the
      three bytes pack back into `p`. */
  function Channels(p: U32): (c: Rgb8)
    ensures p < 0x100_0000 ==> c.r * 0x1_0000 + c.g * 0x100 + c.b == p
  {
    ChannelsRepack(p);
    Rgb8((p / 0x1_0000) % 0x100, (p / 0x100) % 0x100, p % 0x100)
  }

  lemma ChannelsRepack(p: U32)
    ensures p < 0x100_0000 ==>
              ((p / 0x1_0000) % 0x100) * 0x1_0000 + ((p / 0x100) % 0x100) * 0x100 + p % 0x100 == p
  {
    if p < 0x100_0000 {
      var a := p / 0x1_0000;
      var rest := p % 0x1_0000;
      var b := rest / 0x100;
      var c := rest % 0x100;
      assert p == a * 0x1_0000 + rest;
      assert rest == b * 0x100 + c;
      assert a < 0x100;
      DivModUnique(a, 0x100, 0, a);
      DivModUnique(p, 0x100, a * 0x100 + b, c);
      DivModUnique(a * 0x100 + b, 0x100, a, b);
    }
  }

  /** `byte as f32 / 255.0` for each channel: a tint factor in [0, 1]. */
  function Normalize(c: Rgb8): (t: Rgb)
    ensures InUnitRange(t)
    ensures c == Rgb8(255, 255, 255) ==> t == Rgb(1.0, 1.0, 1.0)
  {
    Rgb(c.r as real / 255.0, c.g as real / 255.0, c.b as real / 255.0)
  }

  /** The tint settings of a clock renderer. */
  datatype Tint = Tint(rainbow: bool, color: Option<Rgb>)

  /** The `clock_color` option: absent means no tint; "RAINBOW" in any case
      means the rainbow; otherwise at most six bytes of hex, read by
      `u32::from_str_radix`, whose three low bytes become the colour. */
  function ParseClockColor(clockColor: Option<string>): Result<Tint, CommandError>
  {
    match clockColor
    case None => Ok(Tint(false, None))
    case Some(s) =>
      if ToUpper(s) == "RAINBOW" then Ok(Tint(true, None))
      else if Utf8Len(s) > 6 then Err(ColorFormat)
      else
        match FromStrRadix16(s)
        case Err(kind) => Err(ParseInt(kind))
        case Ok(p) => Ok(Tint(false, Some(Normalize(Channels(p)))))
  }

  /** What the colour parser accepts and refuses: the rainbow word in any
      case; over six bytes refused before parsing; within six bytes,
      accepted exactly when the digits after an optional '+' are a
      non-empty hex string, whose value gives the colour; an empty string
      refused as `Empty`. */
  lemma ParseClockColorSpec(clockColor: Option<string>)
    ensures clockColor.None? ==> ParseClockColor(clockColor) == Ok(Tint(false, None))
    ensures clockColor.Some? && ToUpper(clockColor.value) == "RAINBOW" ==>
              ParseClockColor(clockColor) == Ok(Tint(true, None))
    ensures clockColor.Some? && ToUpper(clockColor.value) != "RAINBOW" && Utf8Len(clockColor.value) > 6 ==>
              ParseClockColor(clockColor) == Err(ColorFormat)
    ensures clockColor.Some? && ToUpper(clockColor.value) != "RAINBOW" && Utf8Len(clockColor.value) <= 6 ==>
              var ds := Digits(clockColor.value);
              (ParseClockColor(clockColor).Ok? <==> ds != [] && AllHexDigits(ds)) &&
              (ds != [] && AllHexDigits(ds) ==>
                 HexValue(ds) < 0x100_0000 &&
                 ParseClockColor(clockColor) == Ok(Tint(false, Some(Normalize(Channels(HexValue(ds)))))))
    ensures clockColor == Some("") ==> ParseClockColor(clockColor) == Err(ParseInt(Empty))
  {
    if clockColor.Some? {
      var s := clockColor.value;
      FromStrRadix16Spec(s);
      var ds := Digits(s);
      if ToUpper(s) != "RAINBOW" && Utf8Len(s) <= 6 && ds != [] && AllHexDigits(ds) {
        assert |ds| <= 6;
        Pow16Monotone(|ds|, 6);
        assert Pow16(6) == 0x100_0000;
      }
    }
  }

  /** The strings the program takes for the rainbow word: seven characters,
      each the upper- or lower-case letter of "RAINBOW", or, as the third,
      the dotless 'ı', whose upper case is 'I'. */
  lemma RainbowWord(s: string)
    ensures ToUpper(s) == "RAINBOW" <==>
              |s| == 7 && forall i :: 0 <= i < 7 ==>
                s[i] == "RAINBOW"[i] || s[i] == "rainbow"[i] || (i == 2 && s[i] == 'ı')
  {
    if ToUpper(s) == "RAINBOW" {
      forall i | 0 <= i < 7
        ensures s[i] == "RAINBOW"[i] || s[i] == "rainbow"[i] || (i == 2 && s[i] == 'ı')
      {
        assert UpperChar(s[i]) == "RAINBOW"[i];
      }
    }
    if |s| == 7 && forall i :: 0 <= i < 7 ==> s[i] == "RAINBOW"[i] || s[i] == "rainbow"[i] || (i == 2 && s[i] == 'ı') {
      forall i | 0 <= i < 7
        ensures ToUpper(s)[i] == "RAINBOW"[i]
      {
      }
    }
  }

  /** An ASCII string takes one byte per character. */
  lemma {:induction false} AsciiLen(s: string)
    requires forall i :: 0 <= i < |s| ==> s[i] as int < 0x80
    ensures Utf8Len(s) == |s|
  {
    if s != [] {
      AsciiLen(s[1..]);
    }
  }

  /** A short colour is padded on the left: "F" is blue 15. */
  lemma ShortColorExample(s: string)
    requires s == "F"
    ensures ParseClockColor(Some(s)) == Ok(Tint(false, Some(Normalize(Rgb8(0, 0, 15)))))
  {
    assert ToUpper(s) == "F";
    AsciiLen(s);
    FromStrRadix16Spec(s);
    assert Digits(s) == s;
    assert HexValue(s) == 15 by { assert s[..0] == []; }
  }

  /** The rainbow word is recognised in any case, and through Unicode case
      mapping: the dotless 'ı' upper-cases to 'I'. */
  lemma RainbowWordExamples(a: string, b: string)
    requires a == "rainbow" && b == "RAıNBOW"
    ensures ParseClockColor(Some(a)) == Ok(Tint(true, None))
    ensures ParseClockColor(Some(b)) == Ok(Tint(true, None))
  {
    assert ToUpper(a) == "RAINBOW";
    assert ToUpper(b) == "RAINBOW";
  }

  /** Seven digits are refused for their length, before any parsing. */
  lemma TooLongExample(long: string)
    requires long == "1234567"
    ensures ParseClockColor(Some(long)) == Err(ColorFormat)
  {
    assert ToUpper(long) != "RAINBOW" by { assert ToUpper(long)[0] == '1'; }
    AsciiLen(long);
  }

  /** Six characters that are not hex digits are refused by the number
      parser. */
  lemma InvalidDigitExample(bad: string)
    requires bad == "GGGGGG"
    ensures ParseClockColor(Some(bad)) == Err(ParseInt(InvalidDigit))
  {
    assert ToUpper(bad) != "RAINBOW" by { assert ToUpper(bad)[0] == 'G'; }
    AsciiLen(bad);
    assert bad[0] == 'G';
    assert FromStrRadix16(bad) == Accumulate(bad, 0);
  }

  /** The number parser accepts one leading '+'. */
  lemma PlusSignExample(plus: string)
    requires plus == "+FF"
    ensures ParseClockColor(Some(plus)) == Ok(Tint(false, Some(Normalize(Rgb8(0, 0, 255)))))
  {
    assert ToUpper(plus) != "RAINBOW" by { assert |ToUpper(plus)| == 3; }
    AsciiLen(plus);
    FromStrRadix16Spec(plus);
    var ds := Digits(plus);
    assert ds == "FF";
    assert HexValue(ds) == 255 by { assert ds[..1] == "F"; assert ds[..1][..0] == []; }
  }

  /** A converted command: the next renderer, and the frame that
      `StaticImage` copies into the output buffer, if any. */
  datatype Converted = Converted(renderer: Renderer.BackgroundRenderer, blit: Option<Frame>)

  /** `Command::into_renderer`. `StaticImage` loads its image, to be copied
      into the output, and leaves no renderer; `ClockImage` parses its
      colour and starts with an empty cache; `Start` and `Stop` give no
      renderer. */
  function IntoRenderer(cmd: Command, width: U32, height: U32, load: Loader): Result<Converted, CommandError>
  {
    match cmd
    case StaticImage(path) =>
      (match load(path, width, height)
       case Err(e) => Err(Image(e))
       case Ok(frame) => Ok(Converted(Renderer.Blank, Some(frame))))
    case ClockImage(dir, fileTemplate, clockStep, clockColor) =>
      (match ParseClockColor(clockColor)
       case Err(e) => Err(e)
       case Ok(tint) =>
         Ok(Converted(Renderer.BackgroundRenderer.ClockImage(dir, fileTemplate, clockStep, [], tint.rainbow, tint.color),
                      None)))
    case _ => Ok(Converted(Renderer.Blank, None))
  }

  /** What each command becomes. `Start` and `Stop` give the blank renderer
      and draw nothing. A clock command fails exactly when its colour does,
      and otherwise passes its directory, template and step through with an
      empty cache. A static image fails exactly when its load does, and
      otherwise the loaded frame, of the output's size, is drawn and the renderer
      is blank. */
  lemma IntoRendererSpec(cmd: Command, width: U32, height: U32, load: Loader)
    requires LoaderSound(load)
    ensures cmd.Start? || cmd.Stop? ==> IntoRenderer(cmd, width, height, load) == Ok(Converted(Renderer.Blank, None))
    ensures cmd.ClockImage? ==>
              (IntoRenderer(cmd, width, height, load).Err? <==> ParseClockColor(cmd.clockColor).Err?) &&
              (ParseClockColor(cmd.clockColor).Err? ==>
                 IntoRenderer(cmd, width, height, load) == Err(ParseClockColor(cmd.clockColor).error))
    ensures cmd.ClockImage? && IntoRenderer(cmd, width, height, load).Ok? ==>
              var r := IntoRenderer(cmd, width, height, load).value;
              r.blit.None? && r.renderer.ClockImage? &&
              r.renderer.dir == cmd.dir && r.renderer.fileTemplate == cmd.fileTemplate &&
              r.renderer.clockStep == cmd.clockStep && r.renderer.buffered == [] &&
              r.renderer.rainbow == ParseClockColor(cmd.clockColor).value.rainbow &&
              r.renderer.color == ParseClockColor(cmd.clockColor).value.color &&
              (cmd.clockColor.None? ==> !r.renderer.rainbow && r.renderer.color.None?)
    ensures cmd.StaticImage? ==>
              (IntoRenderer(cmd, width, height, load).Err? <==> load(cmd.path, width, height).Err?) &&
              (IntoRenderer(cmd, width, height, load).Ok? ==>
                 var r := IntoRenderer(cmd, width, height, load).value;
                 r.renderer.Blank? && r.blit == Some(load(cmd.path, width, height).value) &&
                 |r.blit.value| == FrameLen(width, height))
  {
  }
}
