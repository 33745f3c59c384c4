/** The crop-rectangle geometry of the editor (crop_handler.py): the clamps that
    keep a rectangle inside the video (or inside a 5000-pixel margin around it when
    oversize selection is allowed), the aspect-locked resize, the arrow-key move and
    the undo/redo stacks. Rectangles are integer pixel coordinates (x1, y1, x2, y2);
    `vid_w`/`vid_h` and the oversize check box become a `Video` value. */
module CropHandler {
  import opened Numbers
  import opened Optional
  import Utils

  /** `MIN_W`/`MIN_H` of the editor class (src/ChulipVideo.py:67-68). */
  const MinW: int := 20
  const MinH: int := 20
  /** How far outside the video a rectangle may go when oversize is allowed. */
  const Margin: int := 5000

  datatype Rect = Rect(x1: int, y1: int, x2: int, y2: int)

  /** The video resolution the clamps use and the state of the oversize check box. */
  datatype Video = Video(w: nat, h: nat, oversize: bool)

  /** The edges being dragged (`resize_edge`); a missing dict has every edge off. */
  datatype Edges = Edges(l: bool, r: bool, t: bool, b: bool)

  const NoEdges := Edges(false, false, false, false)

  predicate Inside(r: Rect, v: Video) {
    0 <= r.x1 && r.x2 <= v.w && 0 <= r.y1 && r.y2 <= v.h
  }

  // ------------------------------------------------------------ clamp_rect_canvas

  /** One axis of `clamp_rect_canvas`: order the two coordinates, widen to the
      minimum size, then pull the start back inside the video (or inside the
      margin). The result is (start, size). */
  function CanvasAxis(a: int, b: int, minSize: int, limit: nat, oversize: bool): (r: (int, int))
    ensures r.1 >= minSize && r.1 >= Abs(b - a) && (r.1 == minSize || r.1 == Abs(b - a))
    ensures !oversize && r.1 <= limit ==> 0 <= r.0 && r.0 + r.1 <= limit
    ensures !oversize && r.1 > limit ==> r.0 + r.1 == limit
    ensures oversize ==> -Margin <= r.0 <= limit + Margin
    ensures (!oversize ==> 0 <= Utils.Min(a, b) && Utils.Min(a, b) + r.1 <= limit)
      && (oversize ==> -Margin <= Utils.Min(a, b) <= limit + Margin)
      ==> r.0 == Utils.Min(a, b)
  {
    var lo := Utils.Min(a, b);
    var size := Utils.Max(minSize, Abs(b - a));
    if oversize then
      var s1 := if lo < -Margin then -Margin else lo;
      var s2 := if s1 > limit + Margin then limit + Margin else s1;
      (s2, size)
    else
      var s1 := if lo < 0 then 0 else lo;
      var s2 := if s1 + size > limit then limit - size else s1;
      (s2, size)
  }

  /** `clamp_rect_canvas`: the rectangle ordered, at least MinW×MinH, with its top
      left corner moved into range. */
  function ClampCanvas(r: Rect, v: Video): (c: Rect)
    ensures c.x1 <= c.x2 && c.y1 <= c.y2
    ensures c.x2 - c.x1 == Utils.Max(MinW, Abs(r.x2 - r.x1))
    ensures c.y2 - c.y1 == Utils.Max(MinH, Abs(r.y2 - r.y1))
    ensures !v.oversize && c.x2 - c.x1 <= v.w && c.y2 - c.y1 <= v.h ==> Inside(c, v)
    ensures v.oversize ==> -Margin <= c.x1 <= v.w + Margin && -Margin <= c.y1 <= v.h + Margin
  {
    var (x, w) := CanvasAxis(r.x1, r.x2, MinW, v.w, v.oversize);
    var (y, h) := CanvasAxis(r.y1, r.y2, MinH, v.h, v.oversize);
    Rect(x, y, x + w, y + h)
  }

  /** A second clamp changes nothing: the first already produced an ordered
      rectangle of legal size whose corner the clamp accepts. */
  lemma CanvasAxisIdempotent(a: int, b: int, minSize: int, limit: nat, oversize: bool)
    requires minSize >= 0
    ensures var (s, n) := CanvasAxis(a, b, minSize, limit, oversize);
      CanvasAxis(s, s + n, minSize, limit, oversize) == (s, n)
  {
    var (s, n) := CanvasAxis(a, b, minSize, limit, oversize);
    assert Abs(s + n - s) == n;
  }

  lemma ClampCanvasIdempotent(r: Rect, v: Video)
    ensures ClampCanvas(ClampCanvas(r, v), v) == ClampCanvas(r, v)
  {
    CanvasAxisIdempotent(r.x1, r.x2, MinW, v.w, v.oversize);
    CanvasAxisIdempotent(r.y1, r.y2, MinH, v.h, v.oversize);
  }

  /** A rectangle that is already ordered, large enough and inside the video is
      returned as it is. */
  lemma ClampCanvasKeepsValid(r: Rect, v: Video)
    requires !v.oversize && Inside(r, v)
    requires r.x2 - r.x1 >= MinW && r.y2 - r.y1 >= MinH
    ensures ClampCanvas(r, v) == r
  {
    var (x, w) := CanvasAxis(r.x1, r.x2, MinW, v.w, v.oversize);
    var (y, h) := CanvasAxis(r.y1, r.y2, MinH, v.h, v.oversize);
    assert w == r.x2 - r.x1 && h == r.y2 - r.y1;
  }

  // -------------------------------------------------------------- clamp_rect_move

  /** One axis of `clamp_rect_move`: only the start moves, the size is kept. */
  function MoveAxis(s: int, size: int, limit: nat, oversize: bool): (r: int)
    ensures !oversize && 0 <= size <= limit ==> 0 <= r && r + size <= limit
    ensures oversize ==> r + size <= limit + Margin
    ensures oversize && size <= limit + 2 * Margin ==> -Margin <= r
    ensures (!oversize ==> 0 <= s && s + size <= limit)
      && (oversize ==> -Margin <= s && s + size <= limit + Margin)
      ==> r == s
  {
    if oversize then
      var s1 := if s < -Margin then -Margin else s;
      if s1 + size > limit + Margin then limit + Margin - size else s1
    else
      var s1 := if s < 0 then 0 else s;
      if s1 + size > limit then limit - size else s1
  }

  /** `clamp_rect_move`: a rectangle of exactly w×h at the nearest allowed
      position. */
  function ClampMove(x1: int, y1: int, w: int, h: int, v: Video): (c: Rect)
    ensures c.x2 - c.x1 == w && c.y2 - c.y1 == h
    ensures !v.oversize && 0 <= w <= v.w && 0 <= h <= v.h ==> Inside(c, v)
    ensures !v.oversize && Inside(Rect(x1, y1, x1 + w, y1 + h), v) ==> c == Rect(x1, y1, x1 + w, y1 + h)
  {
    var x := MoveAxis(x1, w, v.w, v.oversize);
    var y := MoveAxis(y1, h, v.h, v.oversize);
    Rect(x, y, x + w, y + h)
  }

  // ------------------------------------------------------------ clamp_rect_resize

  /** One axis of `clamp_rect_resize`. First the minimum size is restored by moving
      the dragged far edge (`highEdge`) or else the near one; then, unless oversize
      is allowed, each coordinate is cut to the video, the dragged edge keeping the
      minimum size where it can. */
  function ResizeAxis(lo: int, hi: int, lowEdge: bool, highEdge: bool, minSize: int, limit: nat, oversize: bool)
    : (r: (int, int))
    ensures oversize ==> r.1 - r.0 >= minSize
    ensures oversize && hi - lo >= minSize ==> r == (lo, hi)
    ensures !oversize && limit >= minSize ==> 0 <= r.0 && r.1 <= limit
    ensures 0 <= lo && lo + minSize <= hi <= limit ==> r == (lo, hi)
  {
    var (a, b) :=
      if hi - lo < minSize then
        (if highEdge then (lo, lo + minSize) else (hi - minSize, hi))
      else (lo, hi);
    if oversize then (a, b)
    else
      var (a1, b1) := if a < 0 then (0, if lowEdge then Utils.Max(b, minSize) else b) else (a, b);
      if b1 > limit then (if highEdge then Utils.Min(a1, limit - minSize) else a1, limit)
      else (a1, b1)
  }

  /** `clamp_rect_resize`: each side constrained on its own. The start is never cut
      from above, so a rectangle typed in wholly to the right of the video comes
      back with x1 > x2 unless the right edge is being dragged. */
  function ClampResize(r: Rect, edges: Edges, v: Video): (c: Rect)
    ensures v.oversize ==> c.x2 - c.x1 >= MinW && c.y2 - c.y1 >= MinH
    ensures !v.oversize && v.w >= MinW && v.h >= MinH ==>
      0 <= c.x1 && c.x2 <= v.w && 0 <= c.y1 && c.y2 <= v.h
    ensures Inside(r, v) && r.x2 - r.x1 >= MinW && r.y2 - r.y1 >= MinH ==> c == r
  {
    var (x1, x2) := ResizeAxis(r.x1, r.x2, edges.l, edges.r, MinW, v.w, v.oversize);
    var (y1, y2) := ResizeAxis(r.y1, r.y2, edges.t, edges.b, MinH, v.h, v.oversize);
    Rect(x1, y1, x2, y2)
  }

  /** The case the comment above describes: x1 = 3000 on a 1920-wide video. */
  lemma ClampResizeCanInvert()
    ensures var c := ClampResize(Rect(3000, 0, 3100, 100), NoEdges, Video(1920, 1080, false));
      c.x1 == 3000 && c.x2 == 1920
  {
  }

  // ------------------------------------------------ maintain_aspect_ratio_resize

  /** `orig_aspect_ratio` as the press on the rectangle sets it: width over
      height of the rectangle, 1.0 when the height is not positive. It is 0
      exactly for a zero-width rectangle of positive height, and negative for
      an inverted one. */
  function OrigRatio(orig: Rect): (ratio: real)
    ensures orig.y2 - orig.y1 > 0 ==> ratio * (orig.y2 - orig.y1) as real == (orig.x2 - orig.x1) as real
    ensures orig.y2 - orig.y1 <= 0 ==> ratio == 1.0
    ensures ratio == 0.0 <==> orig.y2 - orig.y1 > 0 && orig.x2 == orig.x1
  {
    if orig.y2 - orig.y1 > 0 then (orig.x2 - orig.x1) as real / (orig.y2 - orig.y1) as real else 1.0
  }

  /** The branches of `maintain_aspect_ratio_resize` that divide by the ratio:
      only a side edge is dragged. */
  predicate SideOnly(edges: Edges) {
    !(edges.t || edges.b) && (edges.l || edges.r)
  }

  /** The plain branch of `maintain_aspect_ratio_resize`: the corner opposite the
      dragged one stays put. With a top or bottom edge involved the height is kept
      and the width follows it; with only a side edge the width is kept and the
      height follows, and a zero ratio is the division by zero that raises. */
  function AspectFixed(x1: int, y1: int, x2: int, y2: int, edges: Edges, ratio: real): (r: Option<Rect>)
    ensures r.None? <==> SideOnly(edges) && ratio == 0.0
    ensures (edges.t || edges.b) ==>
      && r.Some? && r.value.y1 == y1 && r.value.y2 == y2
      && (if edges.l then r.value.x2 == x2 else r.value.x1 == x1)
      && -1.0 < (r.value.x2 - r.value.x1) as real - (y2 - y1) as real * ratio < 1.0
    ensures SideOnly(edges) && ratio != 0.0 ==>
      r.value.x1 == x1 && r.value.x2 == x2 && r.value.y1 == y1
      && -1.0 < (r.value.y2 - r.value.y1) as real - (x2 - x1) as real / ratio < 1.0
    ensures !(edges.t || edges.b || edges.l || edges.r) ==> r == Some(Rect(x1, y1, x2, y2))
  {
    if edges.t || edges.b then
      var nw := Trunc((y2 - y1) as real * ratio);
      if edges.l then Some(Rect(x2 - nw, y1, x2, y2)) else Some(Rect(x1, y1, x1 + nw, y2))
    else if edges.l || edges.r then
      if ratio == 0.0 then None
      else
        var nh := Trunc((x2 - x1) as real / ratio);
        Some(Rect(x1, y1, x2, y1 + nh))
    else Some(Rect(x1, y1, x2, y2))
  }

  /** The size the Ctrl branch aims for. Whenever an edge is dragged the target
      keeps the aspect ratio, width = height × ratio: with a top or bottom edge
      involved the dragged height is kept, with only a side edge the dragged
      width is kept (and a zero ratio raises). With no edge the dragged size is
      kept as it is. */
  function CentredTarget(x1: int, y1: int, x2: int, y2: int, edges: Edges, ratio: real): (s: Option<(real, real)>)
    ensures s.None? <==> SideOnly(edges) && ratio == 0.0
    ensures s.Some? && (edges.t || edges.b || edges.l || edges.r) ==> s.value.0 == s.value.1 * ratio
    ensures (edges.t || edges.b) ==> s.Some? && s.value.1 == Abs(y2 - y1) as real
    ensures SideOnly(edges) && s.Some? ==> s.value.0 == Abs(x2 - x1) as real
    ensures !(edges.t || edges.b || edges.l || edges.r) ==> s == Some((Abs(x2 - x1) as real, Abs(y2 - y1) as real))
    ensures s.Some? && ratio >= 0.0 ==> s.value.0 >= 0.0 && s.value.1 >= 0.0
  {
    if edges.t || edges.b then Some((Abs(y2 - y1) as real * ratio, Abs(y2 - y1) as real))
    else if edges.l || edges.r then
      if ratio == 0.0 then None else Some((Abs(x2 - x1) as real, Abs(x2 - x1) as real / ratio))
    else Some((Abs(x2 - x1) as real, Abs(y2 - y1) as real))
  }

  /** The Ctrl branch: a rectangle of the target size centred on the centre of
      `orig`, so the centre moves by at most half a pixel on each axis and each
      side is within two pixels of the target. */
  function AspectCentred(x1: int, y1: int, x2: int, y2: int, edges: Edges, orig: Rect, ratio: real): (r: Option<Rect>)
    ensures r.None? <==> SideOnly(edges) && ratio == 0.0
    ensures r.Some? ==> -1 <= (r.value.x1 + r.value.x2) - (orig.x1 + orig.x2) <= 1
    ensures r.Some? ==> -1 <= (r.value.y1 + r.value.y2) - (orig.y1 + orig.y2) <= 1
    ensures r.Some? ==> var (nw, nh) := CentredTarget(x1, y1, x2, y2, edges, ratio).value;
      -2.0 < (r.value.x2 - r.value.x1) as real - nw < 2.0 && -2.0 < (r.value.y2 - r.value.y1) as real - nh < 2.0
  {
    match CentredTarget(x1, y1, x2, y2, edges, ratio)
    case None => None
    case Some((nw, nh)) => Some(CentredRect(orig.x1 + orig.x2, orig.y1 + orig.y2, nw, nh))
  }

  /** A nw×nh rectangle centred on (sx/2, sy/2), corners truncated toward zero. */
  function CentredRect(sx: int, sy: int, nw: real, nh: real): (r: Rect)
    ensures -1 <= (r.x1 + r.x2) - sx <= 1
    ensures -1 <= (r.y1 + r.y2) - sy <= 1
    ensures -2.0 < (r.x2 - r.x1) as real - nw < 2.0
    ensures -2.0 < (r.y2 - r.y1) as real - nh < 2.0
  {
    var (a1, a2) := CentredSpan(sx as real / 2.0, nw);
    var (b1, b2) := CentredSpan(sy as real / 2.0, nh);
    Rect(a1, b1, a2, b2)
  }

  /** `maintain_aspect_ratio_resize`. `ratio` is `orig_aspect_ratio` (see
      `OrigRatio`); any value is accepted, and None is the ZeroDivisionError a
      zero ratio raises when only a side edge is dragged. Without Ctrl the
      top edge and one side stay put; with Ctrl the centre stays within half a
      pixel. */
  function AspectResize(x1: int, y1: int, x2: int, y2: int, edges: Edges, orig: Rect, ratio: real, ctrl: bool)
    : (r: Option<Rect>)
    ensures r.None? <==> SideOnly(edges) && ratio == 0.0
    ensures r.Some? && !ctrl ==> r.value.y1 == y1 && (r.value.x1 == x1 || r.value.x2 == x2)
    ensures r.Some? && ctrl ==>
      -1 <= (r.value.x1 + r.value.x2) - (orig.x1 + orig.x2) <= 1
      && -1 <= (r.value.y1 + r.value.y2) - (orig.y1 + orig.y2) <= 1
  {
    if ctrl then AspectCentred(x1, y1, x2, y2, edges, orig, ratio)
    else AspectFixed(x1, y1, x2, y2, edges, ratio)
  }

  /** A press on a zero-width rectangle of positive height followed by a drag
      of a side edge alone raises instead of resizing. */
  lemma ZeroWidthSideDragRaises(x1: int, y1: int, x2: int, y2: int, edges: Edges, orig: Rect, ctrl: bool)
    requires orig.x1 == orig.x2 && orig.y2 > orig.y1 && SideOnly(edges)
    ensures AspectResize(x1, y1, x2, y2, edges, orig, OrigRatio(orig), ctrl).None?
  {
  }

  /** The ends of a span of length n centred on c, each truncated toward zero:
      each moves by less than one, so they still add up to within two of 2c and
      lie within two of n apart. */
  function CentredSpan(c: real, n: real): (r: (int, int))
    ensures -2.0 < (r.0 + r.1) as real - 2.0 * c < 2.0
    ensures -2.0 < (r.1 - r.0) as real - n < 2.0
  {
    (Trunc(c - n / 2.0), Trunc(c + n / 2.0))
  }

  // ------------------------------------------------------------------ move_crop_by

  /** One axis of the mixin's `move_crop_by`: shift both coordinates; unless
      oversize is allowed, push back against the near and then the far side. */
  function MoveByAxis(a: int, b: int, d: int, limit: nat, oversize: bool): (r: (int, int))
    ensures r.1 - r.0 == b - a
    ensures !oversize && 0 <= b - a <= limit ==> 0 <= r.0 && r.1 <= limit
    ensures oversize || (0 <= a + d && b + d <= limit) ==> r == (a + d, b + d)
  {
    if oversize then (a + d, b + d)
    else
      var (p, q) := if a + d < 0 then (0, b - a) else (a + d, b + d);
      if q > limit then (limit - (b - a), limit) else (p, q)
  }

  /** The mixin's `move_crop_by`: a translation that keeps width and height. */
  function MoveBy(r: Rect, dx: int, dy: int, v: Video): (c: Rect)
    ensures c.x2 - c.x1 == r.x2 - r.x1 && c.y2 - c.y1 == r.y2 - r.y1
    ensures !v.oversize && 0 <= r.x2 - r.x1 <= v.w && 0 <= r.y2 - r.y1 <= v.h ==> Inside(c, v)
    ensures v.oversize || Inside(Rect(r.x1 + dx, r.y1 + dy, r.x2 + dx, r.y2 + dy), v) ==>
      c == Rect(r.x1 + dx, r.y1 + dy, r.x2 + dx, r.y2 + dy)
  {
    var (x1, x2) := MoveByAxis(r.x1, r.x2, dx, v.w, v.oversize);
    var (y1, y2) := MoveByAxis(r.y1, r.y2, dy, v.h, v.oversize);
    Rect(x1, y1, x2, y2)
  }

  // --------------------------------------------------------------- undo and redo

  /** The current rectangle with the undo history and the redo stack, both with
      their top at the end. */
  datatype CropState = CropState(rect: Rect, history: seq<Rect>, redo: seq<Rect>)

  predicate TopIs(stack: seq<Rect>, r: Rect) {
    |stack| > 0 && stack[|stack| - 1] == r
  }

  /** The mixin's `push_crop_history`: the current rectangle is pushed unless it is
      already on top, and only a real push clears the redo stack. */
  function Push(s: CropState): (t: CropState)
    ensures t.rect == s.rect && TopIs(t.history, s.rect)
    ensures TopIs(s.history, s.rect) ==> t == s
    ensures !TopIs(s.history, s.rect) ==>
      |t.history| == |s.history| + 1 && t.history[..|s.history|] == s.history && t.redo == []
  {
    if TopIs(s.history, s.rect) then s
    else CropState(s.rect, s.history + [s.rect], [])
  }

  /** `undo_crop`: the current rectangle goes to the redo stack and the top of the
      history becomes current; nothing happens with an empty history. */
  function Undo(s: CropState): (t: CropState)
    ensures |s.history| == 0 ==> t == s
    ensures |s.history| > 0 ==>
      TopIs(s.history, t.rect) && t.history == s.history[..|s.history| - 1]
      && TopIs(t.redo, s.rect) && |t.redo| == |s.redo| + 1 && t.redo[..|s.redo|] == s.redo
  {
    if |s.history| == 0 then s
    else
      var n := |s.history| - 1;
      CropState(s.history[n], s.history[..n], s.redo + [s.rect])
  }

  /** `redo_crop`, the mirror image of Undo. */
  function Redo(s: CropState): (t: CropState)
    ensures |s.redo| == 0 ==> t == s
    ensures |s.redo| > 0 ==>
      TopIs(s.redo, t.rect) && t.redo == s.redo[..|s.redo| - 1]
      && TopIs(t.history, s.rect) && |t.history| == |s.history| + 1
      && t.history[..|s.history|] == s.history
  {
    if |s.redo| == 0 then s
    else
      var n := |s.redo| - 1;
      CropState(s.redo[n], s.history + [s.rect], s.redo[..n])
  }

  /** Undo followed by redo gives back the rectangle and both stacks. */
  lemma RedoUndo(s: CropState)
    requires |s.history| > 0
    ensures Redo(Undo(s)) == s
  {
    var n := |s.history| - 1;
    assert s.history[..n] + [s.history[n]] == s.history;
    assert (s.redo + [s.rect])[..|s.redo|] == s.redo;
  }

  /** Redo followed by undo gives back the rectangle and both stacks. */
  lemma UndoRedo(s: CropState)
    requires |s.redo| > 0
    ensures Undo(Redo(s)) == s
  {
    var n := |s.redo| - 1;
    assert s.redo[..n] + [s.redo[n]] == s.redo;
    assert (s.history + [s.rect])[..|s.history|] == s.history;
  }

  /** Undo only moves rectangles between the history, the current slot and the
      redo stack: none is lost or made up. */
  lemma UndoConserves(s: CropState)
    ensures var t := Undo(s);
      multiset(t.history) + multiset(t.redo) + multiset{t.rect}
      == multiset(s.history) + multiset(s.redo) + multiset{s.rect}
  {
    if |s.history| > 0 {
      var n := |s.history| - 1;
      assert s.history == s.history[..n] + [s.history[n]];
      assert multiset(s.history) == multiset(s.history[..n]) + multiset{s.history[n]};
      assert multiset(s.redo + [s.rect]) == multiset(s.redo) + multiset{s.rect};
    }
  }

  /** The same for redo. */
  lemma RedoConserves(s: CropState)
    ensures var t := Redo(s);
      multiset(t.history) + multiset(t.redo) + multiset{t.rect}
      == multiset(s.history) + multiset(s.redo) + multiset{s.rect}
  {
    if |s.redo| > 0 {
      var n := |s.redo| - 1;
      assert s.redo == s.redo[..n] + [s.redo[n]];
      assert multiset(s.redo) == multiset(s.redo[..n]) + multiset{s.redo[n]};
      assert multiset(s.history + [s.rect]) == multiset(s.history) + multiset{s.rect};
    }
  }
}
