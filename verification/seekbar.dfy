/** The seek bar (seekbar.py, repeated in src/ChulipVideo.py): the mapping
    between a time and a pixel column, the choice of what a click grabs (the
    start marker, the end marker or the playhead), and dragging with the time
    snapped to whole frames. The canvas width is a parameter; times and pixels are
    reals. */
module Seekbar {
  import opened Numbers
  import opened Optional
  import Editor

  /** `SEEK_MARGIN` and `CANVAS_W` of the editor class (src/ChulipVideo.py:62, 72). */
  const SeekMargin: real := 20.0
  const CanvasW: real := 640.0

  /** Grabbing a marker needs a click closer than this many pixels. */
  const GrabLimit: real := 15.0

  /** The canvas width used: the real one, or `CANVAS_W` before the canvas is
      laid out (a width of 1 or less). */
  function SeekWidth(winfoWidth: real): (w: real)
    ensures w > 1.0
  {
    if winfoWidth <= 1.0 then CanvasW else winfoWidth
  }

  /** The length of the bar between the margins. */
  function BarLength(winfoWidth: real): real {
    SeekWidth(winfoWidth) - 2.0 * SeekMargin
  }

  /** `get_x`: the pixel column of time t. */
  function GetX(t: real, duration: real, winfoWidth: real): (x: real)
    ensures duration <= 0.0 ==> x == SeekMargin
  {
    if duration <= 0.0 then SeekMargin
    else SeekMargin + (t / duration) * BarLength(winfoWidth)
  }

  /** A time inside the video lands on the bar: between the left margin and
      the right end, the end of the video exactly at the right end. */
  lemma GetXOnBar(t: real, duration: real, winfoWidth: real)
    requires duration > 0.0
    ensures 0.0 <= t <= duration && BarLength(winfoWidth) >= 0.0 ==>
      SeekMargin <= GetX(t, duration, winfoWidth) <= SeekMargin + BarLength(winfoWidth)
    ensures t == duration ==> GetX(t, duration, winfoWidth) == SeekMargin + BarLength(winfoWidth)
  {
    Placement(GetX(t, duration, winfoWidth), t, duration, BarLength(winfoWidth));
  }

  /** The column `SeekMargin + (t / d) * b` of a time inside the video lies on the bar. */
  lemma Placement(x: real, t: real, d: real, b: real)
    requires d > 0.0 && x == SeekMargin + (t / d) * b
    ensures 0.0 <= t <= d && b >= 0.0 ==> SeekMargin <= x <= SeekMargin + b
    ensures t == d ==> x == SeekMargin + b
  {
    ColumnOffset(t, d, b);
  }

  /** A time inside the video lies between the two ends of the bar. */
  lemma ColumnOffset(t: real, duration: real, w: real)
    requires duration > 0.0
    ensures 0.0 <= t <= duration && w >= 0.0 ==> 0.0 <= (t / duration) * w <= w
    ensures t == duration ==> (t / duration) * w == w
  {
    if 0.0 <= t <= duration && w >= 0.0 {
      DivideBound(t, duration);
      var c := t / duration;
      assert c * w <= 1.0 * w;
    }
  }

  /** `get_t`: the time at pixel column x, clamped into the video. None stands
      for the ZeroDivisionError of a canvas exactly two margins wide. */
  function GetT(x: real, duration: real, winfoWidth: real): (t: Option<real>)
    ensures duration <= 0.0 ==> t == Some(0.0)
    ensures t.None? <==> duration > 0.0 && BarLength(winfoWidth) == 0.0
    ensures t.Some? && duration > 0.0 ==> 0.0 <= t.value <= duration
  {
    if duration <= 0.0 then Some(0.0)
    else
      var w := BarLength(winfoWidth);
      if w == 0.0 then None
      else
        var c := Clamp01((x - SeekMargin) / w);
        ScaleBound(c, duration);
        Some(c * duration)
  }

  /** `max(0.0, min(1.0, ratio))` */
  function Clamp01(ratio: real): (c: real)
    ensures 0.0 <= c <= 1.0
    ensures 0.0 <= ratio <= 1.0 ==> c == ratio
  {
    var m := if ratio > 1.0 then 1.0 else ratio;
    if m > 0.0 then m else 0.0
  }

  lemma ScaleBound(c: real, d: real)
    requires 0.0 <= c <= 1.0 && d > 0.0
    ensures 0.0 <= c * d <= d
  {
  }

  /** Reading the time back from the column of a time inside the video gives
      that time. */
  lemma GetTGetX(t: real, duration: real, winfoWidth: real)
    requires 0.0 <= t <= duration && duration > 0.0 && BarLength(winfoWidth) != 0.0
    ensures GetT(GetX(t, duration, winfoWidth), duration, winfoWidth) == Some(t)
  {
    var w := BarLength(winfoWidth);
    var q := t / duration;
    var x := GetX(t, duration, winfoWidth);
    assert x == SeekMargin + q * w;
    MulDivCancel(q, w);
    assert (x - SeekMargin) / w == q;
    DivideBound(t, duration);
    assert Clamp01((x - SeekMargin) / w) == q;
    DivMulCancel(t, duration);
  }

  lemma MulDivCancel(q: real, w: real)
    requires w != 0.0
    ensures (q * w) / w == q
  {
  }

  lemma DivMulCancel(a: real, f: real)
    requires f != 0.0
    ensures (a / f) * f == a
  {
  }

  lemma DivideBound(t: real, d: real)
    requires 0.0 <= t <= d && d > 0.0
    ensures 0.0 <= t / d <= 1.0
  {
  }

  // ------------------------------------------------------------------ drag

  /** What the mouse holds on the bar. */
  datatype Mode = Start | End | Current

  /** The trim range and playhead, the drag mode, the frame rate and the canvas
      width. */
  datatype SeekState = SeekState(trim: Editor.Trim, mode: Option<Mode>, fps: real, winfoWidth: real)

  /** The time of frame n at rate f. */
  function FrameTime(n: int, f: real): (r: real)
    requires f != 0.0
    ensures r * f == n as real
  {
    DivMulCancel(n as real, f);
    n as real / f
  }

  /** `round(t * fps) / fps` with `fps or 30.0`: t moved to the nearest whole
      frame, ties to even; a zero frame rate counts as 30. */
  function Snap(t: real, fps: real): (r: real)
    ensures r * Rate(fps) == RoundHalfEven(t * Rate(fps)) as real
  {
    FrameTime(RoundHalfEven(t * Rate(fps)), Rate(fps))
  }

  /** A snapped time is within half a frame of the raw one. */
  lemma SnapHalfFrame(t: real, fps: real)
    ensures -0.5 <= (Snap(t, fps) - t) * Rate(fps) <= 0.5
  {
    var r := Snap(t, fps);
    assert r * Rate(fps) == RoundHalfEven(t * Rate(fps)) as real;
    assert (r - t) * Rate(fps) == RoundHalfEven(t * Rate(fps)) as real - t * Rate(fps);
  }

  /** Snapping a snapped time leaves it where it is. */
  lemma SnapIdempotent(t: real, fps: real)
    ensures Snap(Snap(t, fps), fps) == Snap(t, fps)
  {
    SnapIsFrame(t, fps);
    FrameSnapsToItself(RoundHalfEven(t * Rate(fps)), fps);
  }

  /** The rate `fps or 30.0` that snapping uses. */
  function Rate(fps: real): (f: real)
    ensures f != 0.0
  {
    if fps == 0.0 then 30.0 else fps
  }

  lemma SnapIsFrame(t: real, fps: real)
    ensures Snap(t, fps) == FrameTime(RoundHalfEven(t * Rate(fps)), Rate(fps))
  {
  }

  /** The time of a frame snaps to itself. */
  lemma FrameSnapsToItself(n: int, fps: real)
    ensures Snap(FrameTime(n, Rate(fps)), fps) == FrameTime(n, Rate(fps))
  {
    var x := FrameTime(n, Rate(fps));
    SnapIsFrame(x, fps);
    assert Snap(x, fps) == FrameTime(RoundHalfEven(x * Rate(fps)), Rate(fps));
    FrameTimeRound(n, Rate(fps));
    assert RoundHalfEven(x * Rate(fps)) == n;
  }

  /** The time of a frame rounds back to that frame. */
  lemma FrameTimeRound(n: int, f: real)
    requires f != 0.0
    ensures RoundHalfEven(FrameTime(n, f) * f) == n
  {
    RoundWhole(n);
  }

  /** A whole number rounds to itself. */
  lemma RoundWhole(n: int)
    ensures RoundHalfEven(n as real) == n
  {
    var m := RoundHalfEven(n as real);
    assert -1 < n - m < 1;
  }

  /** The setter a drag mode drives: `set_start_time_direct`,
      `set_end_time_direct` or `set_current_time_direct`. */
  function Setter(m: Mode, t: Editor.Trim, v: real): Editor.Trim {
    match m
    case Start => Editor.SetStart(t, v)
    case End => Editor.SetEnd(t, v)
    case Current => Editor.SetCurrent(t, v)
  }

  /** The trim after the mouse at column x drags in mode m: the mode's setter
      applied to the column's time snapped to a frame; unchanged when the column
      has no time. */
  function DragTrim(s: SeekState, m: Mode, x: real): Editor.Trim {
    match GetT(x, s.trim.duration, s.winfoWidth)
    case None => s.trim
    case Some(raw) => Setter(m, s.trim, Snap(raw, s.fps))
  }

  /** `handle_seek_drag`: the snapped time of column x goes to the setter of the
      drag mode, and to none without one. */
  function HandleDrag(s: SeekState, x: real): (r: SeekState)
    ensures r.mode == s.mode && r.fps == s.fps && r.winfoWidth == s.winfoWidth
    ensures r.trim.duration == s.trim.duration
    ensures Editor.ValidTrim(s.trim) ==> Editor.ValidTrim(r.trim)
    ensures s.mode != Some(Start) ==> r.trim.start == s.trim.start
    ensures s.mode != Some(End) ==> r.trim.end == s.trim.end
    ensures s.mode.None? || GetT(x, s.trim.duration, s.winfoWidth).None? ==> r == s
    ensures s.mode.Some? ==> r.trim == DragTrim(s, s.mode.value, x)
  {
    match GetT(x, s.trim.duration, s.winfoWidth)
    case None => s
    case Some(raw) =>
      var t := Snap(raw, s.fps);
      match s.mode
      case Some(Current) => s.(trim := Editor.SetCurrent(s.trim, t))
      case Some(Start) => s.(trim := Editor.SetStart(s.trim, t))
      case Some(End) => s.(trim := Editor.SetEnd(s.trim, t))
      case None => s
  }

  /** A click at x grabs the start marker: closer than 15 pixels, and not
      farther than the end marker. */
  predicate GrabsStart(s: SeekState, x: real) {
    var ds := RealAbs(x - GetX(s.trim.start, s.trim.duration, s.winfoWidth));
    ds < GrabLimit && ds <= RealAbs(x - GetX(s.trim.end, s.trim.duration, s.winfoWidth))
  }

  /** A click at x is closer than 15 pixels to the end marker. */
  predicate NearEnd(s: SeekState, x: real) {
    RealAbs(x - GetX(s.trim.end, s.trim.duration, s.winfoWidth)) < GrabLimit
  }

  /** `seek_on_click`: the start marker is grabbed when closer than 15 pixels and
      not farther than the end marker, else the end marker when closer than 15
      pixels, else the playhead, which also seeks to the click. */
  function Click(s: SeekState, x: real): (r: SeekState)
    ensures s.trim.duration <= 0.0 ==> r == s
    ensures s.trim.duration > 0.0 ==> r.mode.Some?
    ensures s.trim.duration > 0.0 ==>
      (r.mode == Some(Start) <==> GrabsStart(s, x))
      && (r.mode == Some(End) <==> !GrabsStart(s, x) && NearEnd(s, x))
    ensures r.mode == Some(Start) || r.mode == Some(End) ==> r.trim == s.trim
    ensures s.trim.duration > 0.0 && r.mode == Some(Current) ==> r.trim == DragTrim(s, Current, x)
    ensures Editor.ValidTrim(s.trim) ==> Editor.ValidTrim(r.trim)
  {
    if s.trim.duration <= 0.0 then s
    else
      var sx := GetX(s.trim.start, s.trim.duration, s.winfoWidth);
      var ex := GetX(s.trim.end, s.trim.duration, s.winfoWidth);
      var ds := RealAbs(x - sx);
      var de := RealAbs(x - ex);
      if ds < GrabLimit && ds <= de then s.(mode := Some(Start))
      else if de < GrabLimit then s.(mode := Some(End))
      else HandleDrag(s.(mode := Some(Current)), x)
  }

  function RealAbs(x: real): (r: real)
    ensures r >= 0.0 && (r == x || r == -x)
  {
    if x < 0.0 then -x else x
  }

  /** A click on the start marker grabs it; a click on the end marker grabs it
      when the start marker is 15 pixels or more away. */
  lemma ClickOnMarker(s: SeekState)
    requires s.trim.duration > 0.0
    ensures Click(s, GetX(s.trim.start, s.trim.duration, s.winfoWidth)).mode == Some(Start)
    ensures var ex := GetX(s.trim.end, s.trim.duration, s.winfoWidth);
      RealAbs(ex - GetX(s.trim.start, s.trim.duration, s.winfoWidth)) >= GrabLimit ==>
      Click(s, ex).mode == Some(End)
  {
  }

  /** A click far from both markers grabs the playhead and moves only it. */
  lemma ClickElsewhere(s: SeekState, x: real)
    requires s.trim.duration > 0.0
    requires RealAbs(x - GetX(s.trim.start, s.trim.duration, s.winfoWidth)) >= GrabLimit
    requires RealAbs(x - GetX(s.trim.end, s.trim.duration, s.winfoWidth)) >= GrabLimit
    ensures var r := Click(s, x);
      r.mode == Some(Current) && r.trim.start == s.trim.start && r.trim.end == s.trim.end
  {
  }

  /** `seek_on_drag`: ignored without a drag mode or a video; otherwise the
      mode's setter takes the snapped time of the column. */
  function Drag(s: SeekState, x: real): (r: SeekState)
    ensures s.mode.None? || s.trim.duration <= 0.0 ==> r == s
    ensures r.mode == s.mode
    ensures s.mode.Some? && s.trim.duration > 0.0 ==> r.trim == DragTrim(s, s.mode.value, x)
    ensures Editor.ValidTrim(s.trim) ==> Editor.ValidTrim(r.trim)
  {
    if s.trim.duration <= 0.0 || s.mode.None? then s else HandleDrag(s, x)
  }

  /** Dragging lands exactly on the snapped time of the column when the mode
      allows that time, and the snapped time is within half a frame of the
      column's own time. */
  lemma DragLands(s: SeekState, x: real, raw: real)
    requires Editor.ValidTrim(s.trim) && s.trim.duration > 0.0 && s.mode.Some?
    requires GetT(x, s.trim.duration, s.winfoWidth) == Some(raw)
    ensures -0.5 <= (Snap(raw, s.fps) - raw) * Rate(s.fps) <= 0.5
    ensures var t, r := Snap(raw, s.fps), Drag(s, x).trim;
      && (s.mode == Some(Start) && 0.0 <= t <= s.trim.end ==> r.start == t && r.current == t)
      && (s.mode == Some(End) && s.trim.start <= t <= s.trim.duration ==> r.end == t && r.current == t)
      && (s.mode == Some(Current) && 0.0 <= t <= s.trim.duration ==> r.current == t)
  {
    SnapHalfFrame(raw, s.fps);
  }

  /** `seek_on_release`: the drag mode is cleared, so later drags do nothing. */
  function Release(s: SeekState): (r: SeekState)
    ensures r.mode.None? && r.trim == s.trim
  {
    s.(mode := None)
  }

  lemma DragAfterRelease(s: SeekState, x: real)
    ensures Drag(Release(s), x) == Release(s)
  {
  }
}
