/** The time-slot clock of the clock-image renderer: the constants of the
    12-hour cycle, `clock_millis`, and where the frame for a time slot is
    loaded from. */
module Clock {
  import opened Common
  import opened Formatting
  import opened Arithmetic

  /** How many frames the renderer keeps loaded ahead. */
  const PreBufferedImages: nat := 10
  const MillisPerSecond: nat := 1000
  const MillisPerMinute: nat := 60 * MillisPerSecond
  const MillisPerHour: nat := 60 * MillisPerMinute
  /** The length of the cycle: twelve hours. */
  const MillisTotal: nat := 12 * MillisPerHour

  /** The fields of the local wall-clock time that `clock_millis` reads. */
  datatype WallClock = WallClock(hour: nat, minute: nat, second: nat, subsecMillis: nat)
  {
    /** The ranges the time library guarantees; the sub-second milliseconds
        reach 1000..1999 only while a leap second is being represented. */
    predicate Valid()
    {
      hour < 24 && minute < 60 && second < 60 && subsecMillis < 2000
    }
  }

  /** Milliseconds elapsed in the current half day, before rounding. */
  function MillisOfHalfDay(now: WallClock): nat
  {
    (now.hour % 12) * MillisPerHour + now.minute * MillisPerMinute
      + now.second * MillisPerSecond + now.subsecMillis
  }

  /** `clock_millis`: the current time slot, the half-day milliseconds
      rounded down to a multiple of the clock step. The program divides by
      the step, so a zero step is excluded here (it panics there). The sum
      never exceeds `u32`, so no wrap-around occurs. */
  function ClockMillis(now: WallClock, step: U32): (r: U32)
    requires now.Valid() && step > 0
    ensures r % step == 0
    ensures r <= MillisOfHalfDay(now) < r + step
    ensures now.subsecMillis < 1000 ==> r < MillisTotal
  {
    HalfDayBound(now);
    RoundDown(MillisOfHalfDay(now), step)
  }

  /** `(x / step) * step`: the largest multiple of `step` not above `x`. */
  function RoundDown(x: nat, step: nat): (r: nat)
    requires step > 0
    ensures r % step == 0
    ensures r <= x < r + step
  {
    FloorToMultiple(x, step);
    (x / step) * step
  }

  lemma HalfDayBound(now: WallClock)
    requires now.Valid()
    ensures MillisOfHalfDay(now) < MillisTotal + 1000
    ensures now.subsecMillis < 1000 ==> MillisOfHalfDay(now) < MillisTotal
  {
    var h := now.hour % 12;
    assert h * MillisPerHour <= 11 * MillisPerHour;
    assert now.minute * MillisPerMinute <= 59 * MillisPerMinute;
    assert now.second * MillisPerSecond <= 59 * MillisPerSecond;
  }

  type Path = string

  /** `PathBuf::push` of a relative path: a '/' is put between the two
      unless the directory is empty or already ends in one. */
  function JoinPath(dir: Path, rel: Path): (p: Path)
    ensures p == dir + rel || p == dir + "/" + rel
  {
    if dir == [] || dir[|dir| - 1] == '/' then dir + rel else dir + "/" + rel
  }

  /** The hour sub-directory a time slot's frame lives in. */
  function HourBucket(millis: U32): (h: nat)
    ensures h * MillisPerHour <= millis < (h + 1) * MillisPerHour
    ensures millis < MillisTotal ==> h <= 11
  {
    millis / MillisPerHour
  }

  /** The file name: the template with every "%m" replaced by the slot,
      zero-padded to eight digits. */
  function ClockImageFile(fileTemplate: string, millis: U32): string
  {
    Replace(fileTemplate, "%m", ZeroPad8(millis))
  }

  /** The path `load_clock_image` opens for a time slot. */
  function ClockImagePath(dir: Path, fileTemplate: string, millis: U32): Path
  {
    JoinPath(dir, Decimal(HourBucket(millis)) + "/" + ClockImageFile(fileTemplate, millis))
  }

  /** What the file name holds: no "%m" is left, a template without the
      token is used as it is, and the padded number reads back as the slot,
      in exactly eight digits for every slot of the cycle. */
  lemma ClockImageFileSpec(fileTemplate: string, millis: U32)
    ensures !Occurs(ClockImageFile(fileTemplate, millis), "%m")
    ensures !Occurs(fileTemplate, "%m") ==> ClockImageFile(fileTemplate, millis) == fileTemplate
    ensures DecimalValue(ZeroPad8(millis)) == millis
    ensures millis < MillisTotal ==> |ZeroPad8(millis)| == 8
  {
    ZeroPad8RoundTrip(millis);
    TokenFullyReplaced(fileTemplate, ZeroPad8(millis));
    if !Occurs(fileTemplate, "%m") {
      ReplaceAbsent(fileTemplate, "%m", ZeroPad8(millis));
    }
  }

  /** One more digit: `Decimal` of `10 n + d` is `Decimal(n)` followed by `d`. */
  lemma DecimalAppend(n: nat, d: nat, m: nat)
    requires 1 <= n && d < 10 && m == 10 * n + d
    ensures Decimal(m) == Decimal(n) + [DigitChar(d)]
  {
    DivModUnique(m, 10, n, d);
  }

  lemma DecimalExample(millis: nat)
    requires millis == 12_345_700
    ensures Decimal(millis) == "12345700"
  {
    assert Decimal(1) == "1";
    DecimalAppend(1, 2, 12);
    assert Decimal(12) == "12";
    DecimalAppend(12, 3, 123);
    assert Decimal(123) == "123";
    DecimalAppend(123, 4, 1234);
    assert Decimal(1234) == "1234";
    DecimalAppend(1234, 5, 12345);
    assert Decimal(12345) == "12345";
    DecimalAppend(12345, 7, 123457);
    DecimalAppend(123457, 0, 1234570);
    DecimalAppend(1234570, 0, millis);
  }

  lemma ZeroPadExample(millis: U32)
    requires millis == 12_345_700
    ensures ZeroPad8(millis) == "12345700"
  {
    DecimalExample(millis);
  }

  /** A template with one token between two '%'-free parts has exactly that
      token replaced. */
  lemma ReplaceSplice(pre: string, ext: string, rep: string)
    requires forall i :: 0 <= i < |pre| ==> pre[i] != '%'
    requires forall i :: 0 <= i < |ext| ==> ext[i] != '%'
    ensures Replace(pre + "%m" + ext, "%m", rep) == pre + rep + ext
  {
    ReplaceKeep(ext, [], "%m", rep);
    assert ext + [] == ext;
    var s := "%m" + ext;
    assert s[..2] == "%m";
    assert s[2..] == ext;
    ReplaceKeep(pre, s, "%m", rep);
    assert pre + "%m" + ext == pre + s;
  }

  lemma ReplaceExample(pre: string, ext: string, z: string)
    requires pre == "frame_" && ext == ".png" && z == "12345700"
    ensures Replace(pre + "%m" + ext, "%m", z) == "frame_12345700.png"
  {
    ReplaceSplice(pre, ext, z);
  }

  lemma ClockImageFileExample(fileTemplate: string, millis: U32)
    requires fileTemplate == "frame_%m.png" && millis == 12_345_700
    ensures ClockImageFile(fileTemplate, millis) == "frame_12345700.png"
  {
    ZeroPadExample(millis);
    ReplaceExample("frame_", ".png", ZeroPad8(millis));
    assert "frame_" + "%m" + ".png" == fileTemplate;
  }

  lemma HourExample(millis: U32)
    requires millis == 12_345_700
    ensures Decimal(HourBucket(millis)) == "3"
  {
    assert HourBucket(millis) == 3;
  }

  lemma JoinExample(dir: Path, h: string, f: string)
    requires dir == "dir" && h == "3" && f == "frame_12345700.png"
    ensures JoinPath(dir, h + "/" + f) == "dir/3/frame_12345700.png"
  {
  }

  /** The slot 12 345 700 lies in hour 3 and is loaded from
      `dir/3/frame_12345700.png`. */
  lemma ClockImagePathExample(dir: Path, fileTemplate: string, millis: U32)
    requires dir == "dir" && fileTemplate == "frame_%m.png" && millis == 12_345_700
    ensures ClockImagePath(dir, fileTemplate, millis) == "dir/3/frame_12345700.png"
  {
    ClockImageFileExample(fileTemplate, millis);
    HourExample(millis);
    JoinExample(dir, Decimal(HourBucket(millis)), ClockImageFile(fileTemplate, millis));
  }
}
