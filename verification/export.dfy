/** The exporters (export.py): the crop rectangle clamped into the video, the
    refusal of an empty region, the frame selection of the PNG export with its
    "same as previous and next" and "same as last saved" filters, and the file
    names. Frames are values of an abstract type compared with `==`; the frames
    the export loop samples between the trim start and end are given as a
    sequence, None standing for a read that failed or a crop with no pixels. */
module Export {
  import opened Numbers
  import opened Optional
  import Utils

  // ------------------------------------------------------------------ clamp

  /** `max(0, min(limit, v))` */
  function ClampCoord(v: int, limit: nat): (r: int)
    ensures 0 <= r <= limit
    ensures 0 <= v <= limit ==> r == v
    ensures v < 0 ==> r == 0
    ensures v > limit ==> r == limit
  {
    var m := if limit < v then limit else v;
    if m > 0 then m else 0
  }

  /** The pixel region an export reads: every corner clamped into the video. */
  datatype Region = Region(x1: int, y1: int, x2: int, y2: int)

  function ClampRegion(x1: int, y1: int, x2: int, y2: int, vidW: nat, vidH: nat): (r: Region)
    ensures 0 <= r.x1 <= vidW && 0 <= r.x2 <= vidW && 0 <= r.y1 <= vidH && 0 <= r.y2 <= vidH
    ensures 0 <= x1 <= vidW && 0 <= x2 <= vidW && 0 <= y1 <= vidH && 0 <= y2 <= vidH ==>
      r == Region(x1, y1, x2, y2)
  {
    Region(ClampCoord(x1, vidW), ClampCoord(y1, vidH), ClampCoord(x2, vidW), ClampCoord(y2, vidH))
  }

  /** Clamping a clamped region changes nothing. */
  lemma ClampRegionIdempotent(x1: int, y1: int, x2: int, y2: int, vidW: nat, vidH: nat)
    ensures var r := ClampRegion(x1, y1, x2, y2, vidW, vidH);
      ClampRegion(r.x1, r.y1, r.x2, r.y2, vidW, vidH) == r
  {
  }

  /** The GIF and video exports: the output size, or None for the error dialog
      they show when the clamped region has no width or no height. */
  function ExportSize(x1: int, y1: int, x2: int, y2: int, vidW: nat, vidH: nat): (r: Option<(nat, nat)>)
    ensures r.Some? ==> r.value.0 > 0 && r.value.1 > 0
    ensures r.Some? ==> r.value.0 <= vidW && r.value.1 <= vidH
    ensures r.Some? <==>
      ClampCoord(x1, vidW) < ClampCoord(x2, vidW) && ClampCoord(y1, vidH) < ClampCoord(y2, vidH)
  {
    var c := ClampRegion(x1, y1, x2, y2, vidW, vidH);
    var w := c.x2 - c.x1;
    var h := c.y2 - c.y1;
    if w <= 0 || h <= 0 then None else Some((w, h))
  }

  /** A rectangle that misses the video, or is drawn right to left, is refused;
      one inside the video is exported at its own size. */
  lemma ExportSizeCases(x1: int, y1: int, x2: int, y2: int, vidW: nat, vidH: nat)
    ensures x1 >= vidW || x2 <= 0 || y1 >= vidH || y2 <= 0 || x2 <= x1 || y2 <= y1 ==>
      ExportSize(x1, y1, x2, y2, vidW, vidH).None?
    ensures 0 <= x1 < x2 <= vidW && 0 <= y1 < y2 <= vidH ==>
      ExportSize(x1, y1, x2, y2, vidW, vidH) == Some((x2 - x1, y2 - y1))
  {
  }

  // ------------------------------------------------------- frame selection

  /** The crop the loop keeps as "previous" at step i: the last readable crop
      before it, whether or not that one was saved. */
  function Prev<F>(crops: seq<Option<F>>, i: nat): (r: Option<F>)
    requires i <= |crops|
  {
    if i == 0 then None
    else if crops[i - 1].Some? then crops[i - 1]
    else Prev(crops, i - 1)
  }

  /** Prev is the latest readable crop before i, and None only when there is none. */
  lemma {:induction false} PrevIsLastReadable<F>(crops: seq<Option<F>>, i: nat)
    requires i <= |crops|
    ensures Prev(crops, i).None? ==> forall j :: 0 <= j < i ==> crops[j].None?
    ensures Prev(crops, i).Some? ==>
      exists j :: 0 <= j < i && crops[j] == Prev(crops, i) && forall m :: j < m < i ==> crops[m].None?
  {
    if i > 0 && crops[i - 1].None? {
      PrevIsLastReadable(crops, i - 1);
    }
  }

  /** The crop read one frame interval later, None past the trim end. */
  function Next<F>(crops: seq<Option<F>>, i: nat): Option<F> {
    if i + 1 < |crops| then crops[i + 1] else None
  }

  /** The "previous and next identical" check box: off, or the crop equals each
      neighbour that exists, and at least one does. */
  predicate NeighboursMatch<F(==)>(crops: seq<Option<F>>, i: nat, on: bool)
    requires i < |crops| && crops[i].Some?
  {
    Agrees(Prev(crops, i), crops[i].value, Next(crops, i), on)
  }

  /** The check on the crops themselves: with the box on, c equals each
      neighbour present and at least one is present. */
  predicate Agrees<F(==)>(prev: Option<F>, c: F, next: Option<F>, on: bool) {
    !on ||
    match (prev, next)
    case (Some(p), Some(n)) => p == c && c == n
    case (None, Some(n)) => c == n
    case (Some(p), None) => p == c
    case (None, None) => false
  }

  /** The last saved crop before step j, when some crop was saved before it, is
      the frame at j. */
  predicate LastSavedIs<F(==)>(crops: seq<Option<F>>, saved: seq<nat>, j: nat, c: Option<F>) {
    exists k {:trigger saved[k]} :: 0 <= k < |saved| && saved[k] < j && (k + 1 == |saved| || saved[k + 1] > j)
      && saved[k] < |crops| && crops[saved[k]] == c
  }

  /** Every crop before step i that was not written was held back only by the
      duplicate check: it equals the crop last written before it. */
  predicate Complete<F(==)>(crops: seq<Option<F>>, saved: seq<nat>, i: nat, pn: bool, dup: bool)
    requires i <= |crops|
  {
    forall j :: (0 <= j < i && crops[j].Some? && NeighboursMatch(crops, j, pn)
                 && j !in saved) ==> dup && LastSavedIs(crops, saved, j, crops[j])
  }

  /** What holds of the crops written before step i: in order, readable, past
      the neighbour check, and with the duplicate check on no two in a row equal. */
  predicate Written<F(==)>(crops: seq<Option<F>>, saved: seq<nat>, i: nat, pn: bool, dup: bool)
    requires i <= |crops|
  {
    && (forall k :: 0 <= k < |saved| ==> saved[k] < i)
    && (forall k, m :: 0 <= k < m < |saved| ==> saved[k] < saved[m])
    && (forall k :: 0 <= k < |saved| ==> crops[saved[k]].Some? && NeighboursMatch(crops, saved[k], pn))
    && (dup ==> forall k :: 0 < k < |saved| ==> crops[saved[k]] != crops[saved[k - 1]])
  }

  lemma WrittenExtend<F>(crops: seq<Option<F>>, saved: seq<nat>, i: nat, pn: bool, dup: bool)
    requires i < |crops| && Written(crops, saved, i, pn, dup)
    requires crops[i].Some? && NeighboursMatch(crops, i, pn)
    requires dup && |saved| > 0 ==> crops[saved[|saved| - 1]] != crops[i]
    ensures Written(crops, saved + [i], i + 1, pn, dup)
  {
  }

  lemma WrittenLater<F>(crops: seq<Option<F>>, saved: seq<nat>, i: nat, pn: bool, dup: bool)
    requires i < |crops| && Written(crops, saved, i, pn, dup)
    ensures Written(crops, saved, i + 1, pn, dup)
  {
  }

  /** The loop of `export_png`: returns the indices of the crops written and the
      count it reports. A crop is written when it is readable, passes the
      neighbour check, and (with the duplicate check on) differs from the last
      crop written. */
  method SelectFrames<F(==)>(crops: seq<Option<F>>, checkPrevNext: bool, checkDup: bool)
    returns (saved: seq<nat>, count: nat)
    ensures count == |saved|
    ensures forall k, m :: 0 <= k < m < |saved| ==> saved[k] < saved[m]
    ensures forall k :: 0 <= k < |saved| ==>
      saved[k] < |crops| && crops[saved[k]].Some? && NeighboursMatch(crops, saved[k], checkPrevNext)
    ensures checkDup ==> forall k :: 0 < k < |saved| ==> crops[saved[k]] != crops[saved[k - 1]]
    ensures Complete(crops, saved, |crops|, checkPrevNext, checkDup)
    ensures !checkPrevNext && !checkDup ==> forall j :: 0 <= j < |crops| ==> (j in saved <==> crops[j].Some?)
  {
    saved := [];
    count := 0;
    var prev: Option<F> := None;
    var last: Option<F> := None;
    var i := 0;
    while i < |crops|
      invariant 0 <= i <= |crops|
      invariant count == |saved|
      invariant prev == Prev(crops, i)
      invariant Written(crops, saved, i, checkPrevNext, checkDup)
      invariant last == if |saved| == 0 then None else crops[saved[|saved| - 1]]
      invariant Complete(crops, saved, i, checkPrevNext, checkDup)
    {
      var wrote;
      var before, lastBefore := saved, last;
      saved, prev, last, wrote := SelectStep(crops, checkPrevNext, checkDup, i, saved, prev, last);
      StepKeeps(crops, before, i, checkPrevNext, checkDup, lastBefore, wrote, saved);
      if wrote {
        count := count + 1;
      }
      i := i + 1;
    }
    if !checkPrevNext && !checkDup {
      NoFiltersWritesAll(crops, saved);
    }
  }

  /** One iteration of the loop of `export_png` on crop i: a readable crop that
      passes both checks is written and becomes the last one written; a readable
      crop becomes the previous one whether written or not. */
  method SelectStep<F(==)>(crops: seq<Option<F>>, pn: bool, dup: bool, i: nat,
                           saved: seq<nat>, prev: Option<F>, last: Option<F>)
    returns (saved': seq<nat>, prev': Option<F>, last': Option<F>, wrote: bool)
    requires i < |crops| && prev == Prev(crops, i)
    requires forall k :: 0 <= k < |saved| ==> saved[k] < |crops|
    requires last == if |saved| == 0 then None else crops[saved[|saved| - 1]]
    ensures saved' == if wrote then saved + [i] else saved
    ensures wrote <==> crops[i].Some? && NeighboursMatch(crops, i, pn) && !(dup && last == crops[i])
    ensures prev' == Prev(crops, i + 1)
    ensures last' == if |saved'| == 0 then None else crops[saved'[|saved'| - 1]]
  {
    PrevStep(crops, i);
    wrote := crops[i].Some? && Agrees(prev, crops[i].value, Next(crops, i), pn) && !(dup && last == crops[i]);
    prev' := if crops[i].Some? then crops[i] else prev;
    if wrote {
      saved', last' := saved + [i], crops[i];
      assert saved'[|saved'| - 1] == i;
    } else {
      saved', last' := saved, last;
    }
  }

  /** Step i + 1 sees crop i as the previous one when it is readable. */
  lemma PrevStep<F>(crops: seq<Option<F>>, i: nat)
    requires i < |crops|
    ensures Prev(crops, i + 1) == if crops[i].Some? then crops[i] else Prev(crops, i)
  {
  }

  /** Whether or not crop i is written, the loop's promises carry over to step
      i + 1. */
  lemma StepKeeps<F>(crops: seq<Option<F>>, saved: seq<nat>, i: nat, pn: bool, dup: bool,
                     last: Option<F>, wrote: bool, saved': seq<nat>)
    requires i < |crops| && Written(crops, saved, i, pn, dup) && Complete(crops, saved, i, pn, dup)
    requires last == if |saved| == 0 then None else crops[saved[|saved| - 1]]
    requires wrote <==> (crops[i].Some? && NeighboursMatch(crops, i, pn) && !(dup && last == crops[i]))
    requires saved' == if wrote then saved + [i] else saved
    ensures Written(crops, saved', i + 1, pn, dup) && Complete(crops, saved', i + 1, pn, dup)
  {
    if wrote {
      WriteStep(crops, saved, i, pn, dup);
    } else {
      PassStep(crops, saved, i, pn, dup);
    }
  }

  /** Writing crop i keeps the loop's promises. */
  lemma WriteStep<F>(crops: seq<Option<F>>, saved: seq<nat>, i: nat, pn: bool, dup: bool)
    requires i < |crops| && Written(crops, saved, i, pn, dup) && Complete(crops, saved, i, pn, dup)
    requires crops[i].Some? && NeighboursMatch(crops, i, pn)
    requires dup && |saved| > 0 ==> crops[saved[|saved| - 1]] != crops[i]
    ensures Written(crops, saved + [i], i + 1, pn, dup) && Complete(crops, saved + [i], i + 1, pn, dup)
  {
    SavedExtend(crops, saved, i, pn, dup);
    WrittenExtend(crops, saved, i, pn, dup);
  }

  /** Passing over crop i keeps the loop's promises. */
  lemma PassStep<F>(crops: seq<Option<F>>, saved: seq<nat>, i: nat, pn: bool, dup: bool)
    requires i < |crops| && Written(crops, saved, i, pn, dup) && Complete(crops, saved, i, pn, dup)
    requires crops[i].None? || !NeighboursMatch(crops, i, pn)
      || (dup && |saved| > 0 && crops[saved[|saved| - 1]] == crops[i])
    ensures Written(crops, saved, i + 1, pn, dup) && Complete(crops, saved, i + 1, pn, dup)
  {
    SkipStep(crops, saved, i, pn, dup);
    WrittenLater(crops, saved, i, pn, dup);
  }

  /** With both check boxes off the crops written are exactly the readable ones. */
  lemma NoFiltersWritesAll<F>(crops: seq<Option<F>>, saved: seq<nat>)
    requires forall k :: 0 <= k < |saved| ==> saved[k] < |crops| && crops[saved[k]].Some?
    requires Complete(crops, saved, |crops|, false, false)
    ensures forall j :: 0 <= j < |crops| ==> (j in saved <==> crops[j].Some?)
  {
  }

  /** Writing crop i keeps every earlier skipped crop's witness. */
  lemma SavedExtend<F>(crops: seq<Option<F>>, saved: seq<nat>, i: nat, pn: bool, dup: bool)
    requires i < |crops|
    requires forall k :: 0 <= k < |saved| ==> saved[k] < i
    requires Complete(crops, saved, i, pn, dup)
    ensures Complete(crops, saved + [i], i + 1, pn, dup)
  {
    forall j | 0 <= j < i + 1 && crops[j].Some? && NeighboursMatch(crops, j, pn) && j !in saved + [i]
      ensures dup && LastSavedIs(crops, saved + [i], j, crops[j])
    {
      assert j != i && j !in saved;
      var k {:trigger saved[k]} :| 0 <= k < |saved| && saved[k] < j && (k + 1 == |saved| || saved[k + 1] > j)
        && saved[k] < |crops| && crops[saved[k]] == crops[j];
      assert (saved + [i])[k] == saved[k];
      assert k + 1 == |saved| ==> (saved + [i])[k + 1] == i;
      assert k + 1 < |saved| ==> (saved + [i])[k + 1] == saved[k + 1];
    }
  }

  /** Passing over crop i, because it is unreadable, fails the neighbour check,
      or repeats the last written crop, keeps the loop's promise. */
  lemma SkipStep<F>(crops: seq<Option<F>>, saved: seq<nat>, i: nat, pn: bool, dup: bool)
    requires i < |crops|
    requires forall k :: 0 <= k < |saved| ==> saved[k] < i
    requires Complete(crops, saved, i, pn, dup)
    requires crops[i].None? || !NeighboursMatch(crops, i, pn)
      || (dup && |saved| > 0 && crops[saved[|saved| - 1]] == crops[i])
    ensures Complete(crops, saved, i + 1, pn, dup)
  {
    if crops[i].Some? && NeighboursMatch(crops, i, pn) {
      assert dup && |saved| > 0 && crops[saved[|saved| - 1]] == crops[i];
      var k := |saved| - 1;
      assert 0 <= k < |saved| && saved[k] < i && k + 1 == |saved| && saved[k] < |crops| && crops[saved[k]] == crops[i];
      assert LastSavedIs(crops, saved, i, crops[i]);
    }
  }

  // ------------------------------------------------------------ file names

  /** `int((t - int(t)) * fps)`: the frame within the second. */
  function FrameInSecond(t: real, fps: real): (f: int)
    ensures 0.0 <= t && 0.0 < fps ==> 0 <= f && f as real < fps
  {
    var frac := t - Trunc(t) as real;
    if 0.0 <= t && 0.0 < fps then
      FractionOf(frac, fps);
      Trunc(frac * fps)
    else Trunc(frac * fps)
  }

  lemma FractionOf(a: real, b: real)
    requires 0.0 <= a < 1.0 && 0.0 < b
    ensures 0.0 <= a * b < b
  {
  }

  /** The PNG name `<video>_<HHMMSS>_<frame in second, 3 digits>.png`. */
  function PngName(video: string, t: real, fps: real): string {
    video + Stamp(t, fps) + ".png"
  }

  /** `_<HHMMSS>_<frame in second, 3 digits>`, the time stamp of the file names. */
  function Stamp(t: real, fps: real): string {
    "_" + Utils.SecToHhmmss(t) + "_" + PadInt(FrameInSecond(t, fps), 3)
  }

  /** `max(1, fps)` */
  function AtLeastOne(fps: real): (f: real)
    ensures f >= 1.0 && (fps >= 1.0 ==> f == fps) && (fps < 1.0 ==> f == 1.0)
  {
    if fps < 1.0 then 1.0 else fps
  }

  /** The default name of the trimmed MP4: both ends written like the PNG stamp,
      with the frame rate taken as at least 1. */
  function TrimName(video: string, start: real, end: real, fps: real): string {
    var f := AtLeastOne(fps);
    video + "_trim_" + Utils.SecToHhmmss(Trunc(start) as real) + "_" + PadInt(FrameInSecond(start, f), 3)
      + "_" + Utils.SecToHhmmss(Trunc(end) as real) + "_" + PadInt(FrameInSecond(end, f), 3) + ".mp4"
  }

  /** The trim name carries the PNG stamps of both ends: truncating the time
      before formatting it changes nothing, and a rate below 1 counts as 1. */
  lemma TrimNameStamps(video: string, start: real, end: real, fps: real)
    ensures TrimName(video, start, end, fps)
      == video + "_trim" + Stamp(start, AtLeastOne(fps)) + Stamp(end, AtLeastOne(fps)) + ".mp4"
  {
    var f := AtLeastOne(fps);
    Utils.HhmmssOfWhole(start);
    Utils.HhmmssOfWhole(end);
    Regroup(video, Utils.SecToHhmmss(start), PadInt(FrameInSecond(start, f), 3),
      Utils.SecToHhmmss(end), PadInt(FrameInSecond(end, f), 3));
  }

  lemma Regroup(v: string, h1: string, d1: string, h2: string, d2: string)
    ensures v + "_trim_" + h1 + "_" + d1 + "_" + h2 + "_" + d2 + ".mp4"
      == v + "_trim" + ("_" + h1 + "_" + d1) + ("_" + h2 + "_" + d2) + ".mp4"
  {
    assert "_trim_" == "_trim" + "_";
  }

  /** The pieces of a concatenation are found at their offsets. */
  lemma Pieces(a: string, b: string, c: string)
    ensures var n := a + b + c;
      n[..|a|] == a && n[|a|..|a| + |b|] == b && n[|a| + |b|..] == c
  {
  }

  /** Below 100 hours and 1000 frames per second the stamp is eleven
      characters: an underscore, six digits spelling the whole seconds, an
      underscore and three digits spelling the frame. */
  lemma StampShape(t: real, fps: real)
    requires 0.0 <= t < 360000.0 && 0.0 < fps <= 1000.0
    ensures var s := Stamp(t, fps);
      |s| == 11 && s[0] == '_' && s[7] == '_'
      && s[1..7] == Utils.SecToHhmmss(t) && AllDigits(s[1..7])
      && AllDigits(s[8..]) && DigitsValue(s[8..]) == FrameInSecond(t, fps)
  {
    Utils.HhmmssFields(t);
    var f := FrameInSecond(t, fps);
    assert Pow10(3) == 1000;
    NatToStringLength(f, 3);
    var h := Utils.SecToHhmmss(t);
    var d := PadInt(f, 3);
    Pieces("_" + h + "_", d, "");
    Pieces("_", h, "_");
  }

  /** Below 100 hours and 1000 frames per second the trim name is the video
      name, `_trim`, the eleven-character stamps of both ends, and `.mp4`. */
  lemma TrimNameShape(video: string, start: real, end: real, fps: real)
    requires 0.0 <= start < 360000.0 && 0.0 <= end < 360000.0 && fps <= 1000.0
    ensures var n := TrimName(video, start, end, fps); var v := |video|;
      |n| == v + 31 && n[..v] == video && n[v..v + 5] == "_trim"
      && n[v + 5..v + 16] == Stamp(start, AtLeastOne(fps))
      && n[v + 16..v + 27] == Stamp(end, AtLeastOne(fps))
      && n[v + 27..] == ".mp4"
  {
    TrimNameStamps(video, start, end, fps);
    StampShape(start, AtLeastOne(fps));
    StampShape(end, AtLeastOne(fps));
    TrimLayout(video, Stamp(start, AtLeastOne(fps)), Stamp(end, AtLeastOne(fps)));
  }

  lemma TrimLayout(video: string, a: string, b: string)
    requires |a| == 11 && |b| == 11
    ensures var n := video + "_trim" + a + b + ".mp4"; var v := |video|;
      |n| == v + 31 && n[..v] == video && n[v..v + 5] == "_trim"
      && n[v + 5..v + 16] == a && n[v + 16..v + 27] == b && n[v + 27..] == ".mp4"
  {
    Pieces(video + "_trim", a, b + ".mp4");
    Pieces(video, "_trim", "");
    Pieces(b, ".mp4", "");
  }

  /** Below 100 hours and 1000 frames per second the PNG name is the video name
      followed by exactly fifteen characters: the stamp `_HHMMSS_fff.png`, whose
      six digits spell the whole seconds and whose last three the frame. */
  lemma PngNameShape(video: string, t: real, fps: real)
    requires 0.0 <= t < 360000.0 && 0.0 < fps <= 1000.0
    ensures var n := PngName(video, t, fps);
      |n| == |video| + 15 && n[..|video|] == video
      && AllDigits(n[|video| + 1..|video| + 7]) && AllDigits(n[|video| + 8..|video| + 11])
      && DigitsValue(n[|video| + 8..|video| + 11]) == FrameInSecond(t, fps)
      && n[|video| + 11..] == ".png"
  {
    StampShape(t, fps);
    PngLayout(video, Stamp(t, fps));
  }

  lemma PngLayout(video: string, s: string)
    requires |s| == 11
    ensures var n := video + s + ".png"; var v := |video|;
      |n| == v + 15 && n[..v] == video && n[v + 1..v + 7] == s[1..7] && n[v + 8..v + 11] == s[8..]
      && n[v + 11..] == ".png"
  {
    Pieces(video, s, ".png");
  }
}
