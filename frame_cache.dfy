/** The frame cache of the clock-image renderer: a deque of `(slot, frame)`
    pairs, front at index 0 and back at the last index, that `render` trims
    at the back and refills at the front. This module holds the functions
    that specify the two loops; the loops themselves are in `Renderer`. */
module FrameCache {
  import opened Common
  import opened Arithmetic
  import opened Clock

  /** RGBA bytes, four per pixel, row-major. */
  type Frame = seq<Byte>

  /** A deque element `(u32, RgbaImage)`: a time slot and its frame. */
  datatype Entry = Entry(slot: U32, frame: Frame)

  /** Why opening or decoding an image file failed. */
  datatype LoadError = LoadError(message: string)

  /** Opening an image file and resizing it to `width` x `height`; the
      file system and the decoder are outside the model. */
  type Loader = (Path, U32, U32) -> Result<Frame, LoadError>

  function FrameLen(width: U32, height: U32): nat
  {
    width * height * 4
  }

  /** The loader's contract: a frame it returns has exactly four bytes per
      pixel of the requested size. */
  ghost predicate LoaderSound(load: Loader)
  {
    forall p, w, h :: load(p, w, h).Ok? ==> |load(p, w, h).value| == FrameLen(w, h)
  }

  /** Every frame of the deque has four bytes per pixel of the given size. */
  predicate FramesSized(q: seq<Entry>, width: U32, height: U32)
  {
    forall i :: 0 <= i < |q| ==> |q[i].frame| == FrameLen(width, height)
  }

  /** `u32::abs_diff`. */
  function AbsDiff(a: U32, b: U32): nat
  {
    if a >= b then a - b else b - a
  }

  function Back(q: seq<Entry>): Entry
    requires q != []
  {
    q[|q| - 1]
  }

  /** An entry is stale when its slot is at least a step away from the
      current slot, measured without wrapping around the cycle. */
  predicate Stale(e: Entry, current: U32, step: U32)
  {
    AbsDiff(e.slot, current) >= step
  }

  /** The eviction loop: pop the back while it is stale. What is left is a
      prefix of the deque whose back (if any) is fresh, and everything
      removed was stale. */
  function EvictStale(q: seq<Entry>, current: U32, step: U32): (r: seq<Entry>)
    ensures |r| <= |q| && r == q[..|r|]
    ensures r == [] || !Stale(Back(r), current, step)
    ensures forall j :: |r| <= j < |q| ==> Stale(q[j], current, step)
    decreases |q|
  {
    if q == [] || !Stale(Back(q), current, step) then q
    else EvictStale(q[..|q| - 1], current, step)
  }

  /** `(slot + clock_step) % MILLIS_TOTAL` on `u32`: the sum wraps around at
      2^32 (release-build arithmetic) before the remainder is taken. */
  function Advance(slot: U32, step: U32): (r: U32)
    ensures r < MillisTotal
  {
    ((slot + step) % U32Modulus) % MillisTotal
  }

  /** The slot the fill loop loads next: the current slot for an empty
      deque, otherwise one step after the front. */
  function NextSlot(q: seq<Entry>, current: U32, step: U32): U32
  {
    if q == [] then current else Advance(q[0].slot, step)
  }

  /** Each entry is one step after the entry behind it. */
  predicate Chained(q: seq<Entry>, step: U32)
  {
    forall i :: 0 <= i < |q| - 1 ==> q[i].slot == Advance(q[i + 1].slot, step)
  }

  /** An entry holds the frame the loader gives for its slot's path. */
  predicate LoadedFrom(e: Entry, dir: Path, fileTemplate: string, width: U32, height: U32, load: Loader)
  {
    load(ClockImagePath(dir, fileTemplate, e.slot), width, height) == Ok(e.frame)
  }

  /** The first `k` entries of `q` were pushed by the fill loop: each holds
      the slot `NextSlot` chose given the entries behind it, and that slot's
      frame. */
  predicate PushedPrefix(q: seq<Entry>, k: nat, current: U32, step: U32,
                         dir: Path, fileTemplate: string, width: U32, height: U32, load: Loader)
    requires k <= |q|
  {
    forall i :: 0 <= i < k ==>
      q[i].slot == NextSlot(q[i + 1..], current, step) &&
      LoadedFrom(q[i], dir, fileTemplate, width, height, load)
  }

  /** Where the fill loop ends: the deque it leaves, and the load error
      that stopped it, if one did. */
  datatype Filled = Filled(entries: seq<Entry>, failure: Option<LoadError>)

  /** What the fill loop leaves, starting from `q`: `q` is still at the
      back, in front of it the pushed entries, and either the deque is full
      or the load of the next slot failed with the error recorded. */
  predicate FilledFrom(q: seq<Entry>, r: Filled, current: U32, step: U32, dir: Path, fileTemplate: string,
                       width: U32, height: U32, load: Loader)
  {
    |q| <= |r.entries| && r.entries[|r.entries| - |q|..] == q &&
    PushedPrefix(r.entries, |r.entries| - |q|, current, step, dir, fileTemplate, width, height, load) &&
    (r.failure.None? ==>
       |r.entries| == if |q| < PreBufferedImages then PreBufferedImages else |q|) &&
    (r.failure.Some? ==>
       |r.entries| < PreBufferedImages &&
       load(ClockImagePath(dir, fileTemplate, NextSlot(r.entries, current, step)), width, height)
         == Err(r.failure.value))
  }

  /** The fill loop: while fewer than `PreBufferedImages` entries are held,
      load the next slot's frame and push it at the front; a failed load
      stops the loop, keeping what was pushed before it. */
  function Prefetch(q: seq<Entry>, current: U32, step: U32, dir: Path, fileTemplate: string,
                    width: U32, height: U32, load: Loader): (r: Filled)
    ensures FilledFrom(q, r, current, step, dir, fileTemplate, width, height, load)
    decreases PreBufferedImages - |q|
  {
    if |q| >= PreBufferedImages then Filled(q, None)
    else
      var slot := NextSlot(q, current, step);
      match load(ClockImagePath(dir, fileTemplate, slot), width, height)
      case Err(e) => Filled(q, Some(e))
      case Ok(frame) =>
        var r := Prefetch([Entry(slot, frame)] + q, current, step, dir, fileTemplate, width, height, load);
        PushOneMore(r, q, Entry(slot, frame), current, step, dir, fileTemplate, width, height, load);
        r
  }

  /** The step of the fill loop's proof: an entry pushed in front of a
      short deque `q` with the slot `NextSlot(q)` and its loaded frame
      extends the pushed prefix by one. */
  lemma PushOneMore(r: Filled, q: seq<Entry>, e: Entry, current: U32, step: U32,
                    dir: Path, fileTemplate: string, width: U32, height: U32, load: Loader)
    requires |q| < PreBufferedImages
    requires e.slot == NextSlot(q, current, step) && LoadedFrom(e, dir, fileTemplate, width, height, load)
    requires FilledFrom([e] + q, r, current, step, dir, fileTemplate, width, height, load)
    ensures FilledFrom(q, r, current, step, dir, fileTemplate, width, height, load)
  {
    var s := r.entries;
    var k := |s| - |q|;
    assert s[k - 1..][0] == s[k - 1];
    assert s[k..] == s[k - 1..][1..];
  }

  /** With a sound loader, every frame the fill loop pushes has the
      requested size, so a deque of such frames stays one. */
  lemma PrefetchSized(q: seq<Entry>, current: U32, step: U32, dir: Path, fileTemplate: string,
                      width: U32, height: U32, load: Loader)
    requires LoaderSound(load) && FramesSized(q, width, height)
    ensures FramesSized(Prefetch(q, current, step, dir, fileTemplate, width, height, load).entries, width, height)
  {
    var s := Prefetch(q, current, step, dir, fileTemplate, width, height, load).entries;
    var k := |s| - |q|;
    forall i | 0 <= i < |s| ensures |s[i].frame| == FrameLen(width, height) {
      if i >= k {
        assert s[k..][i - k] == s[i];
      }
    }
  }

  /** Entries pushed by the fill loop continue the chain behind them, and
      the first entry pushed into an empty deque is the current slot. */
  lemma PushedChained(q: seq<Entry>, k: nat, current: U32, step: U32,
                      dir: Path, fileTemplate: string, width: U32, height: U32, load: Loader)
    requires k <= |q| && PushedPrefix(q, k, current, step, dir, fileTemplate, width, height, load)
    requires Chained(q[k..], step)
    ensures Chained(q, step)
    ensures k == |q| && q != [] ==> Back(q).slot == current
  {
    forall i | 0 <= i < |q| - 1 ensures q[i].slot == Advance(q[i + 1].slot, step) {
      if i >= k {
        assert q[k..][i - k] == q[i] && q[k..][i - k + 1] == q[i + 1];
      } else {
        assert q[i + 1..][0] == q[i + 1];
      }
    }
    if k == |q| && q != [] {
      assert q[|q|..] == [];
    }
  }

  /** When the fill loop completes, the back of the deque is fresh: it is
      the back that eviction kept, or the current slot itself. */
  lemma PrefetchBackFresh(q: seq<Entry>, current: U32, step: U32, dir: Path, fileTemplate: string,
                          width: U32, height: U32, load: Loader)
    requires step > 0 && (q == [] || !Stale(Back(q), current, step))
    ensures var r := Prefetch(q, current, step, dir, fileTemplate, width, height, load);
            r.failure.None? ==> r.entries != [] && !Stale(Back(r.entries), current, step)
  {
    var r := Prefetch(q, current, step, dir, fileTemplate, width, height, load);
    var s := r.entries;
    var k := |s| - |q|;
    if r.failure.None? {
      if q == [] {
        PushedChained(s, k, current, step, dir, fileTemplate, width, height, load);
      } else {
        assert s[k..][|q| - 1] == Back(s);
      }
    }
  }

  /** A prefix of a chained deque is chained. */
  lemma ChainedPrefix(q: seq<Entry>, n: nat, step: U32)
    requires Chained(q, step) && n <= |q|
    ensures Chained(q[..n], step)
  {
  }

  /** `(a % m + b) % m == (a + b) % m`. */
  lemma ModAddLeft(a: nat, b: nat, m: nat)
    requires m > 0
    ensures (a % m + b) % m == (a + b) % m
  {
    var q1 := a / m;
    var r1 := a % m;
    assert a == q1 * m + r1;
    var q2 := (r1 + b) / m;
    var r2 := (r1 + b) % m;
    assert r1 + b == q2 * m + r2;
    assert a + b == (q1 + q2) * m + r2 by { MulAddDistrib(q1, q2, m); }
    DivModUnique(a + b, m, q1 + q2, r2);
  }

  /** In a chain of slots below the cycle length, with steps small enough
      that no `u32` wrap-around happens, entry `i` lies `j - i` steps after
      entry `j`, modulo the cycle. */
  lemma {:induction false} ChainedDistance(q: seq<Entry>, step: U32, i: nat, j: nat)
    requires Chained(q, step) && i <= j < |q|
    requires step < MillisTotal && q[j].slot < MillisTotal
    ensures q[i].slot == (q[j].slot + (j - i) * step) % MillisTotal
    decreases j - i
  {
    if i == j {
      assert (j - i) * step == 0;
      DivModUnique(q[j].slot, MillisTotal, 0, q[j].slot);
    } else {
      ChainedDistance(q, step, i + 1, j);
      var k: nat := j - i - 1;
      var s := q[i + 1].slot;
      var x := q[j].slot + k * step;
      assert s == x % MillisTotal;
      assert q[i].slot == Advance(s, step);
      assert (s + step) % U32Modulus == s + step by {
        DivModUnique(s + step, U32Modulus, 0, s + step);
      }
      ModAddLeft(x, step, MillisTotal);
      assert (j - i) * step == k * step + step by { MulSucc(k, step); }
    }
  }

  /** The cache never holds two frames for one slot, provided the steps it
      covers stay within one cycle. */
  lemma ChainedSlotsDistinct(q: seq<Entry>, step: U32)
    requires Chained(q, step) && q != [] && Back(q).slot < MillisTotal
    requires 0 < step && (|q| - 1) * step < MillisTotal
    ensures forall i, j :: 0 <= i < j < |q| ==> q[i].slot != q[j].slot
  {
    var b := |q| - 1;
    MulAtLeast(step, 1);
    assert step <= b * step || b == 0 by {
      if b > 0 { MulMonotone(1, b, step); }
    }
    forall i, j | 0 <= i < j < |q| ensures q[i].slot != q[j].slot {
      ChainedDistance(q, step, j, b);
      ChainedDistance(q, step, i, j);
      var k := j - i;
      MulAtLeast(step, k);
      MulMonotone(k, b, step);
      var s := q[j].slot;
      if s + k * step < MillisTotal {
        DivModUnique(s + k * step, MillisTotal, 0, s + k * step);
      } else {
        DivModUnique(s + k * step, MillisTotal, 1, s + k * step - MillisTotal);
      }
    }
  }
}
