/** The editor window's own handling of the crop rectangle and the trim range
    (src/ChulipVideo.py). The window overrides the mixin's `push_crop_history`,
    `move_crop_by` and `update_crop_from_entries`. It also overrides `undo_crop`
    and `redo_crop`, but with the same effect on the rectangle and both stacks as
    the mixin's (only the widget refresh differs), so those are reused from
    CropHandler. Widgets become values: the four
    entry boxes are strings, the lock check boxes and drag flags are booleans, and
    the video size with the oversize check box is a `Video`. */
module Editor {
  import opened Numbers
  import opened Optional
  import opened CropHandler
  import Utils

  // ------------------------------------------------------------ crop history

  /** The window's `push_crop_history`: the current rectangle is pushed unless it
      is already on top, and the redo stack is cleared in every case. */
  function EditorPush(s: CropState): (t: CropState)
    ensures t.rect == s.rect && TopIs(t.history, s.rect) && t.redo == []
    ensures |s.history| <= |t.history| <= |s.history| + 1 && t.history[..|s.history|] == s.history
  {
    if TopIs(s.history, s.rect) then CropState(s.rect, s.history, [])
    else CropState(s.rect, s.history + [s.rect], [])
  }

  /** The two versions of `push_crop_history` build the same history and differ
      only in the redo stack: the mixin keeps it when nothing was pushed, the
      window always drops it. */
  lemma EditorPushVersusMixin(s: CropState)
    ensures EditorPush(s).history == Push(s).history && EditorPush(s).rect == Push(s).rect
    ensures EditorPush(s) == Push(s) <==> !TopIs(s.history, s.rect) || s.redo == []
  {
  }

  /** Pushing twice is pushing once. */
  lemma EditorPushIdempotent(s: CropState)
    ensures EditorPush(EditorPush(s)) == EditorPush(s)
  {
  }

  /** A push followed by undo gives back the rectangle and the history it found;
      the pushed rectangle ends up on the redo stack. */
  lemma UndoAfterPush(s: CropState)
    requires !TopIs(s.history, s.rect)
    ensures Undo(EditorPush(s)).rect == s.rect && Undo(EditorPush(s)).history == s.history
    ensures Undo(EditorPush(s)).redo == [s.rect]
  {
    assert (s.history + [s.rect])[..|s.history|] == s.history;
  }

  // ------------------------------------------------------------- arrow move

  /** The window's `move_crop_by` (Alt + arrow): nothing with the position lock
      on; otherwise the rectangle is pushed and the translated rectangle goes
      through the canvas clamp. */
  function EditorMoveBy(s: CropState, moveLocked: bool, dx: int, dy: int, v: Video): (t: CropState)
    ensures moveLocked ==> t == s
    ensures !moveLocked ==> TopIs(t.history, s.rect) && t.redo == []
    ensures !moveLocked ==>
      t.rect.x2 - t.rect.x1 == Utils.Max(MinW, Abs(s.rect.x2 - s.rect.x1))
      && t.rect.y2 - t.rect.y1 == Utils.Max(MinH, Abs(s.rect.y2 - s.rect.y1))
  {
    if moveLocked then s
    else
      var p := EditorPush(s);
      var r := s.rect;
      CropState(ClampCanvas(Rect(r.x1 + dx, r.y1 + dy, r.x2 + dx, r.y2 + dy), v), p.history, p.redo)
  }

  /** A move inside the video lands exactly where it was aimed when oversize is
      off and the moved rectangle is at least the minimum size. */
  lemma EditorMoveByExact(s: CropState, dx: int, dy: int, v: Video)
    requires !v.oversize
    requires var r := s.rect;
      Inside(Rect(r.x1 + dx, r.y1 + dy, r.x2 + dx, r.y2 + dy), v)
      && r.x2 - r.x1 >= MinW && r.y2 - r.y1 >= MinH
    ensures var r := s.rect;
      EditorMoveBy(s, false, dx, dy, v).rect == Rect(r.x1 + dx, r.y1 + dy, r.x2 + dx, r.y2 + dy)
  {
    var r := s.rect;
    ClampCanvasKeepsValid(Rect(r.x1 + dx, r.y1 + dy, r.x2 + dx, r.y2 + dy), v);
  }

  /** Undo after a move brings the rectangle back. */
  lemma UndoAfterMove(s: CropState, dx: int, dy: int, v: Video)
    ensures Undo(EditorMoveBy(s, false, dx, dy, v)).rect == s.rect
  {
  }

  // ------------------------------------------------------------ entry boxes

  /** The text of the X, Y, W and H entry boxes. */
  datatype Entries = Entries(x: string, y: string, w: string, h: string)

  /** The four values `update_crop_from_entries` works with: a locked field takes
      the current value and is not read; an unlocked one is read with `int()`.
      None stands for the ValueError of an unreadable box. */
  function EntryValues(cur: Rect, e: Entries, sizeLocked: bool, moveLocked: bool): (r: Option<Rect>)
    ensures r.Some? <==>
      (moveLocked || (ParseInt(e.x).Some? && ParseInt(e.y).Some?))
      && (sizeLocked || (ParseInt(e.w).Some? && ParseInt(e.h).Some?))
    ensures r.Some? && moveLocked ==> r.value.x1 == cur.x1 && r.value.y1 == cur.y1
    ensures r.Some? && sizeLocked ==>
      r.value.x2 - r.value.x1 == cur.x2 - cur.x1 && r.value.y2 - r.value.y1 == cur.y2 - cur.y1
    ensures r.Some? && !moveLocked ==> Some(r.value.x1) == ParseInt(e.x) && Some(r.value.y1) == ParseInt(e.y)
    ensures r.Some? && !sizeLocked ==>
      Some(r.value.x2 - r.value.x1) == ParseInt(e.w) && Some(r.value.y2 - r.value.y1) == ParseInt(e.h)
  {
    var nx := if moveLocked then Some(cur.x1) else ParseInt(e.x);
    var ny := if moveLocked then Some(cur.y1) else ParseInt(e.y);
    var nw := if sizeLocked then Some(cur.x2 - cur.x1) else ParseInt(e.w);
    var nh := if sizeLocked then Some(cur.y2 - cur.y1) else ParseInt(e.h);
    if nx.Some? && ny.Some? && nw.Some? && nh.Some? then
      Some(Rect(nx.value, ny.value, nx.value + nw.value, ny.value + nh.value))
    else None
  }

  /** The window's later `update_crop_from_entries`, the one in effect: ignored
      with both locks on or while the mouse drags or resizes the rectangle, or when
      a box does not read as an integer or nothing changed; otherwise the rectangle
      is pushed and the typed one goes through the resize clamp with the edges of
      the last resize. */
  function UpdateFromEntries(s: CropState, e: Entries, sizeLocked: bool, moveLocked: bool,
                             busy: bool, edges: Edges, v: Video): (t: CropState)
    ensures (sizeLocked && moveLocked) || busy ==> t == s
    ensures EntryValues(s.rect, e, sizeLocked, moveLocked).None? ==> t == s
    ensures EntryValues(s.rect, e, sizeLocked, moveLocked) == Some(s.rect) ==> t == s
    ensures t != s ==> TopIs(t.history, s.rect) && t.redo == []
  {
    if (sizeLocked && moveLocked) || busy then s
    else
      match EntryValues(s.rect, e, sizeLocked, moveLocked)
      case None => s
      case Some(n) =>
        if n == s.rect then s
        else
          var p := EditorPush(s);
          CropState(ClampResize(n, edges, v), p.history, p.redo)
  }

  /** The boxes as the window fills them in: the current position and size. */
  function Displayed(r: Rect): Entries {
    Entries(IntToString(r.x1), IntToString(r.y1), IntToString(r.x2 - r.x1), IntToString(r.y2 - r.y1))
  }

  /** Reading back what the boxes display changes nothing, whatever the locks. */
  lemma DisplayedIsNoop(s: CropState, sizeLocked: bool, moveLocked: bool, busy: bool, edges: Edges, v: Video)
    ensures UpdateFromEntries(s, Displayed(s.rect), sizeLocked, moveLocked, busy, edges, v) == s
  {
    var r := s.rect;
    ParseIntPadInt(r.x1, 0);
    ParseIntPadInt(r.y1, 0);
    ParseIntPadInt(r.x2 - r.x1, 0);
    ParseIntPadInt(r.y2 - r.y1, 0);
  }

  /** A typed rectangle that lies inside the video and has the minimum size is
      taken as it is, and undo brings the old one back. */
  lemma TypedRectTaken(s: CropState, e: Entries, sizeLocked: bool, moveLocked: bool, edges: Edges, v: Video, n: Rect)
    requires !(sizeLocked && moveLocked)
    requires EntryValues(s.rect, e, sizeLocked, moveLocked) == Some(n) && n != s.rect
    requires !v.oversize && Inside(n, v) && n.x2 - n.x1 >= MinW && n.y2 - n.y1 >= MinH
    ensures UpdateFromEntries(s, e, sizeLocked, moveLocked, false, edges, v).rect == n
    ensures Undo(UpdateFromEntries(s, e, sizeLocked, moveLocked, false, edges, v)).rect == s.rect
  {
  }

  // -------------------------------------------------------------- trim range

  /** The trim range, the playhead and the video length, in seconds. */
  datatype Trim = Trim(start: real, end: real, current: real, duration: real)

  predicate ValidTrim(t: Trim) {
    0.0 <= t.start <= t.end <= t.duration && 0.0 <= t.current <= t.duration
  }

  /** `max(0, min(val, duration))` */
  function ClampTime(val: real, duration: real): (r: real)
    ensures 0.0 <= duration ==> 0.0 <= r <= duration
    ensures 0.0 <= val <= duration ==> r == val
  {
    var m := if duration < val then duration else val;
    if m > 0.0 then m else 0.0
  }

  /** The point of [lo, hi] nearest to x. */
  predicate Nearest(x: real, lo: real, hi: real, r: real) {
    lo <= r <= hi && (x < lo ==> r == lo) && (x > hi ==> r == hi) && (lo <= x <= hi ==> r == x)
  }

  /** `set_start_time_direct`: the value is clamped into the video and not past
      the end; the playhead jumps to it. */
  function SetStart(t: Trim, val: real): (r: Trim)
    ensures r.end == t.end && r.duration == t.duration && r.current == r.start
    ensures ValidTrim(t) ==> ValidTrim(r) && Nearest(val, 0.0, t.end, r.start)
  {
    var v := ClampTime(val, t.duration);
    var v' := if v > t.end then t.end else v;
    Trim(v', t.end, v', t.duration)
  }

  /** `set_end_time_direct`: the value is clamped into the video and not before
      the start; the playhead jumps to it. */
  function SetEnd(t: Trim, val: real): (r: Trim)
    ensures r.start == t.start && r.duration == t.duration && r.current == r.end
    ensures ValidTrim(t) ==> ValidTrim(r) && Nearest(val, t.start, t.duration, r.end)
  {
    var v := ClampTime(val, t.duration);
    var v' := if v < t.start then t.start else v;
    Trim(t.start, v', v', t.duration)
  }

  /** `set_current_time_direct`: only the playhead moves, clamped into the video. */
  function SetCurrent(t: Trim, val: real): (r: Trim)
    ensures r.start == t.start && r.end == t.end && r.duration == t.duration
    ensures 0.0 <= t.duration ==> Nearest(val, 0.0, t.duration, r.current)
  {
    Trim(t.start, t.end, ClampTime(val, t.duration), t.duration)
  }

  /** Setting the start twice to the same value is setting it once; so for the
      end. */
  lemma SettersIdempotent(t: Trim, val: real)
    requires ValidTrim(t)
    ensures SetStart(SetStart(t, val), val) == SetStart(t, val)
    ensures SetEnd(SetEnd(t, val), val) == SetEnd(t, val)
  {
  }

  /** Moving the start never moves the end, and the start set to a value inside
      the current range lands exactly there. */
  lemma SetStartWithinRange(t: Trim, val: real)
    requires ValidTrim(t) && 0.0 <= val <= t.end
    ensures SetStart(t, val) == Trim(val, t.end, val, t.duration)
  {
  }
}
