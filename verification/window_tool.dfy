/** The window tool (ChunapTool.py): fitting a requested window geometry into
    the work area of its monitor, and the bounded undo history of window
    geometries. The Win32 queries (window rectangle, monitors, work areas,
    maximised state, mouse button) become parameters; moving the window is the
    geometry returned. */
module WindowTool {
  import opened Optional

  /** A screen rectangle as Win32 reports it: left, top, width, height. */
  datatype Area = Area(left: int, top: int, width: int, height: int)

  /** A window geometry: position and size. */
  datatype Geometry = Geometry(x: int, y: int, w: int, h: int)

  /** The smallest width and height the clamp lets through. */
  const MinSide: int := 32

  /** The most geometries the undo history keeps. */
  const HistoryLimit: nat := 100

  // --------------------------------------------------------------- the clamp

  /** The window lies entirely inside the area. */
  predicate InsideArea(g: Geometry, a: Area) {
    a.left <= g.x && g.x + g.w <= a.left + a.width
    && a.top <= g.y && g.y + g.h <= a.top + a.height
  }

  /** One axis of the clamp: the size is cut to the span, the position is
      moved inside, the size is raised to the minimum, and the position is
      moved inside again, the left or top edge winning. */
  function FitAxis(pos: int, size: int, lo: int, span: int): (r: (int, int))
    ensures r.1 >= MinSide
    ensures span >= MinSide ==> lo <= r.0 && r.0 + r.1 <= lo + span
    ensures MinSide <= size <= span ==> r.1 == size
    ensures lo <= pos && pos + size <= lo + span && MinSide <= size ==> r == (pos, size)
  {
    var hi := lo + span;
    var s1 := if size > span then span else size;
    var p1 := if pos < lo then lo else pos;
    var p2 := if p1 + s1 > hi then hi - s1 else p1;
    var s2 := if s1 < MinSide then MinSide else s1;
    var p3 := if p2 + s2 > hi then hi - s2 else p2;
    var p4 := if p3 < lo then lo else p3;
    (p4, s2)
  }

  /** The clamp block of `apply_window_geometry`, applied to the area bounds. */
  function Clamp(g: Geometry, a: Area): (r: Geometry)
    ensures r.w >= MinSide && r.h >= MinSide
    ensures a.width >= MinSide && a.height >= MinSide ==> InsideArea(r, a)
    ensures MinSide <= g.w <= a.width ==> r.w == g.w
    ensures MinSide <= g.h <= a.height ==> r.h == g.h
  {
    var (x, w) := FitAxis(g.x, g.w, a.left, a.width);
    var (y, h) := FitAxis(g.y, g.h, a.top, a.height);
    Geometry(x, y, w, h)
  }

  /** A window already inside the area and at least the minimum size is left
      where it is. */
  lemma ClampKeepsFitting(g: Geometry, a: Area)
    requires InsideArea(g, a) && g.w >= MinSide && g.h >= MinSide
    ensures Clamp(g, a) == g
  {
  }

  /** Clamping twice is clamping once, whatever the area. */
  lemma ClampIdempotent(g: Geometry, a: Area)
    ensures Clamp(Clamp(g, a), a) == Clamp(g, a)
  {
    FitAxisIdempotent(g.x, g.w, a.left, a.width);
    FitAxisIdempotent(g.y, g.h, a.top, a.height);
  }

  lemma FitAxisIdempotent(pos: int, size: int, lo: int, span: int)
    ensures var r := FitAxis(pos, size, lo, span);
      FitAxis(r.0, r.1, lo, span) == r
  {
  }

  /** The monitor holding point (cx, cy), the first one when none does. */
  function MonitorAt(monitors: seq<Area>, cx: int, cy: int): (m: Area)
    requires |monitors| > 0
    ensures m in monitors
    ensures (exists i :: 0 <= i < |monitors| && Contains(monitors[i], cx, cy)) ==> Contains(m, cx, cy)
    ensures !(exists i :: 0 <= i < |monitors| && Contains(monitors[i], cx, cy)) ==> m == monitors[0]
    ensures (exists i :: 0 <= i < |monitors| && Contains(monitors[i], cx, cy)) ==>
      exists k :: 0 <= k < |monitors| && m == monitors[k] && Contains(m, cx, cy) && NoneContains(monitors[..k], cx, cy)
  {
    FirstMatch(monitors, cx, cy, 0)
  }

  /** No monitor in `ms` holds the point. */
  predicate NoneContains(ms: seq<Area>, cx: int, cy: int) {
    forall j :: 0 <= j < |ms| ==> !Contains(ms[j], cx, cy)
  }

  /** The monitor picked is the one at the first index holding the point. */
  lemma MonitorAtFirst(monitors: seq<Area>, cx: int, cy: int, k: nat)
    requires k < |monitors| && Contains(monitors[k], cx, cy) && NoneContains(monitors[..k], cx, cy)
    ensures MonitorAt(monitors, cx, cy) == monitors[k]
  {
    FirstMatchAt(monitors, cx, cy, 0, k);
  }

  lemma {:induction false} FirstMatchAt(monitors: seq<Area>, cx: int, cy: int, i: nat, k: nat)
    requires i <= k < |monitors| && Contains(monitors[k], cx, cy) && NoneContains(monitors[..k], cx, cy)
    ensures FirstMatch(monitors, cx, cy, i) == monitors[k]
    decreases k - i
  {
    if i < k {
      assert monitors[..k][i] == monitors[i];
      FirstMatchAt(monitors, cx, cy, i + 1, k);
    }
  }

  predicate Contains(m: Area, cx: int, cy: int) {
    m.left <= cx < m.left + m.width && m.top <= cy < m.top + m.height
  }

  function FirstMatch(monitors: seq<Area>, cx: int, cy: int, i: nat): (m: Area)
    requires 0 < |monitors| && i <= |monitors|
    ensures m in monitors
    ensures (exists j :: i <= j < |monitors| && Contains(monitors[j], cx, cy)) ==> Contains(m, cx, cy)
    ensures !(exists j :: i <= j < |monitors| && Contains(monitors[j], cx, cy)) ==> m == monitors[0]
    ensures (exists j :: i <= j < |monitors| && Contains(monitors[j], cx, cy)) ==>
      exists k :: i <= k < |monitors| && m == monitors[k] && Contains(m, cx, cy) && NoneContains(monitors[i..k], cx, cy)
    decreases |monitors| - i
  {
    if i == |monitors| then monitors[0]
    else if Contains(monitors[i], cx, cy) then monitors[i]
    else FirstMatch(monitors, cx, cy, i + 1)
  }

  /** The first work area overlapping the monitor, the first one when none
      does, and the monitor itself without work areas. */
  function WorkArea(m: Area, workAreas: seq<Area>): (a: Area)
    ensures |workAreas| == 0 ==> a == m
    ensures |workAreas| > 0 ==> a in workAreas
    ensures |workAreas| > 0 && (exists i :: 0 <= i < |workAreas| && Overlaps(workAreas[i], m)) ==> Overlaps(a, m)
    ensures |workAreas| > 0 && !(exists i :: 0 <= i < |workAreas| && Overlaps(workAreas[i], m)) ==> a == workAreas[0]
    ensures (exists i :: 0 <= i < |workAreas| && Overlaps(workAreas[i], m)) ==>
      exists k :: 0 <= k < |workAreas| && a == workAreas[k] && Overlaps(a, m) && NoneOverlaps(workAreas[..k], m)
  {
    if |workAreas| == 0 then m else FirstOverlap(m, workAreas, 0)
  }

  /** The strict overlap test of the work-area loop. */
  predicate Overlaps(wa: Area, m: Area) {
    wa.left < m.left + m.width && wa.left + wa.width > m.left
    && wa.top < m.top + m.height && wa.top + wa.height > m.top
  }

  /** No work area in `was` overlaps the monitor. */
  predicate NoneOverlaps(was: seq<Area>, m: Area) {
    forall j :: 0 <= j < |was| ==> !Overlaps(was[j], m)
  }

  /** The work area picked is the one at the first index overlapping the
      monitor. */
  lemma WorkAreaFirst(m: Area, workAreas: seq<Area>, k: nat)
    requires k < |workAreas| && Overlaps(workAreas[k], m) && NoneOverlaps(workAreas[..k], m)
    ensures WorkArea(m, workAreas) == workAreas[k]
  {
    FirstOverlapAt(m, workAreas, 0, k);
  }

  lemma {:induction false} FirstOverlapAt(m: Area, workAreas: seq<Area>, i: nat, k: nat)
    requires i <= k < |workAreas| && Overlaps(workAreas[k], m) && NoneOverlaps(workAreas[..k], m)
    ensures FirstOverlap(m, workAreas, i) == workAreas[k]
    decreases k - i
  {
    if i < k {
      assert workAreas[..k][i] == workAreas[i];
      FirstOverlapAt(m, workAreas, i + 1, k);
    }
  }

  function FirstOverlap(m: Area, workAreas: seq<Area>, i: nat): (a: Area)
    requires 0 < |workAreas| && i <= |workAreas|
    ensures a in workAreas
    ensures (exists j :: i <= j < |workAreas| && Overlaps(workAreas[j], m)) ==> Overlaps(a, m)
    ensures !(exists j :: i <= j < |workAreas| && Overlaps(workAreas[j], m)) ==> a == workAreas[0]
    ensures (exists j :: i <= j < |workAreas| && Overlaps(workAreas[j], m)) ==>
      exists k :: i <= k < |workAreas| && a == workAreas[k] && Overlaps(a, m) && NoneOverlaps(workAreas[i..k], m)
    decreases |workAreas| - i
  {
    if i == |workAreas| then workAreas[0]
    else if Overlaps(workAreas[i], m) then workAreas[i]
    else FirstOverlap(m, workAreas, i + 1)
  }

  /** `apply_window_geometry` for a window that is not maximised: the geometry
      the window is moved to. It goes unchanged without monitor information or
      with "画面外可" (allow out of bounds) on; otherwise it is clamped into the
      work area of the monitor under the centre of the window's current
      rectangle. Dafny's `/` by 2 is Python's `//` by 2. */
  function ApplyGeometry(req: Geometry, cur: Area, monitors: seq<Area>, workAreas: seq<Area>,
                         allowOut: bool): (r: Geometry)
    ensures allowOut || |monitors| == 0 ==> r == req
    ensures !allowOut && |monitors| > 0 ==> r.w >= MinSide && r.h >= MinSide
    ensures !allowOut && |monitors| > 0 ==>
      var a := WorkArea(MonitorAt(monitors, cur.left + cur.width / 2, cur.top + cur.height / 2), workAreas);
      r == Clamp(req, a) && (a.width >= MinSide && a.height >= MinSide ==> InsideArea(r, a))
  {
    if |monitors| == 0 || allowOut then req
    else
      var m := MonitorAt(monitors, cur.left + cur.width / 2, cur.top + cur.height / 2);
      Clamp(req, WorkArea(m, workAreas))
  }

  // ------------------------------------------------------------ the history

  /** A recorded state: the window handle, its rectangle and whether it is
      maximised. A handle of 0 stands for no window. */
  datatype WinState = WinState(hwnd: int, area: Area, maximised: bool)

  /** The undo stack, oldest first, and the last state seen. */
  datatype History = History(entries: seq<WinState>, last: Option<WinState>)

  predicate Bounded(h: History) {
    |h.entries| <= HistoryLimit
  }

  /** `_record_history_step`, run every half second and on a change of the
      maximise check box. `observed` is the target's state, None when there is
      no target or no rectangle. While the left button is held only a change of
      the maximised flag is recorded. The first observation just becomes the last
      state; a different one pushes the last state, dropping the oldest entry
      past 100. */
  function RecordStep(h: History, observed: Option<WinState>, dragging: bool): (r: History)
    ensures Bounded(h) ==> Bounded(r)
    ensures observed.None? ==> r == h
    ensures observed.Some? && h.last == observed ==> r == h
    ensures (dragging && observed.Some? && h.last.Some? && h.last.value.maximised == observed.value.maximised)
      ==> r == h
    ensures h.last.None? ==> r.entries == h.entries
    ensures r != h ==> r.last == observed
    ensures (r.entries != h.entries ==>
      h.last.Some? && r.last == observed && |r.entries| > 0 && r.entries[|r.entries| - 1] == h.last.value)
  {
    match observed
    case None => h
    case Some(s) =>
      var maxChanged := h.last.Some? && h.last.value.maximised != s.maximised;
      if dragging && !maxChanged then h
      else if h.last.None? then History(h.entries, Some(s))
      else if h.last == Some(s) then h
      else
        var e := h.entries + [h.last.value];
        History(if |e| > HistoryLimit then e[1..] else e, Some(s))
  }

  /** A recorded change keeps every earlier entry but the oldest when the
      history was full. */
  lemma RecordKeepsOrder(h: History, s: WinState, dragging: bool)
    requires Bounded(h) && h.last.Some? && h.last != Some(s)
    requires !dragging || h.last.value.maximised != s.maximised
    ensures var r := RecordStep(h, Some(s), dragging);
      if |h.entries| < HistoryLimit then r.entries == h.entries + [h.last.value]
      else r.entries == h.entries[1..] + [h.last.value]
  {
  }

  /** `undo_geometry`: on an empty history nothing happens; otherwise the newest
      entry is popped, becomes the last state and is restored. */
  function Undo(h: History): (r: (History, Option<WinState>))
    ensures |h.entries| == 0 ==> r == (h, None)
    ensures (|h.entries| > 0 ==>
      r.1 == Some(h.entries[|h.entries| - 1])
      && r.0 == History(h.entries[..|h.entries| - 1], r.1))
  {
    if |h.entries| == 0 then (h, None)
    else
      var s := h.entries[|h.entries| - 1];
      (History(h.entries[..|h.entries| - 1], Some(s)), Some(s))
  }

  /** What undo does to the window: it is maximised or restored to the
      recorded flag, and moved to the recorded rectangle only when that flag is
      off. The result is the rectangle to move to. */
  function UndoMove(restored: WinState): (r: Option<Area>)
    ensures r.Some? <==> !restored.maximised
    ensures r.Some? ==> r.value == restored.area
  {
    if restored.maximised then None else Some(restored.area)
  }

  /** Undo right after a recorded change brings back the history as it was,
      when the history was not full. */
  lemma UndoAfterRecord(h: History, s: WinState, dragging: bool)
    requires |h.entries| < HistoryLimit && h.last.Some? && h.last != Some(s)
    requires !dragging || h.last.value.maximised != s.maximised
    ensures Undo(RecordStep(h, Some(s), dragging)) == (h, h.last)
  {
    var e := h.entries + [h.last.value];
    assert e[..|e| - 1] == h.entries;
  }

  /** The reset in `on_target_changed`: when a rectangle is read and there is no
      last state or a different window is selected, the history is cleared and
      the last state becomes the new window's state (none without a window). */
  function TargetChanged(h: History, rect: Option<Area>, hwnd: int, maximised: bool): (r: History)
    ensures rect.None? ==> r == h
    ensures (rect.Some? && (h.last.None? || (hwnd != 0 && h.last.value.hwnd != hwnd))
      ==> r.entries == [] && (r.last.Some? <==> hwnd != 0))
    ensures (rect.Some? && (h.last.None? || (hwnd != 0 && h.last.value.hwnd != hwnd)) && hwnd != 0
      ==> r.last == Some(WinState(hwnd, rect.value, maximised)))
    ensures (rect.Some? && h.last.Some? && (hwnd == 0 || h.last.value.hwnd == hwnd)) ==> r == h
  {
    match rect
    case None => h
    case Some(a) =>
      if h.last.None? || (hwnd != 0 && h.last.value.hwnd != hwnd) then
        History([], if hwnd != 0 then Some(WinState(hwnd, a, maximised)) else None)
      else h
  }

  /** The state stored on a switch is what the next poll compares against: the
      new window seen where it was adds nothing, and seen anywhere else, outside
      a drag, it leaves exactly the switch state to undo. */
  lemma SwitchThenPoll(h: History, a: Area, hwnd: int, maximised: bool, s: WinState, dragging: bool)
    requires h.last.Some? && hwnd != 0 && h.last.value.hwnd != hwnd
    ensures var h1 := TargetChanged(h, Some(a), hwnd, maximised);
      s == WinState(hwnd, a, maximised) ==> RecordStep(h1, Some(s), dragging) == h1
    ensures var h1 := TargetChanged(h, Some(a), hwnd, maximised);
      s != WinState(hwnd, a, maximised) && !dragging ==>
      RecordStep(h1, Some(s), dragging).entries == [WinState(hwnd, a, maximised)]
  {
  }

  /** After switching to another window undo does nothing. */
  lemma UndoAfterSwitch(h: History, a: Area, hwnd: int, maximised: bool)
    requires h.last.Some? && hwnd != 0 && h.last.value.hwnd != hwnd
    ensures Undo(TargetChanged(h, Some(a), hwnd, maximised)).1 == None
  {
  }
}
