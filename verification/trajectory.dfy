/** The editor's side of the input log (src/ChulipVideo.py): reading the TSV
    back, choosing the sample for the playhead, detecting a recent button
    release (the "ripple"), and feeding the subtitle history. */
module Trajectory {
  import opened Text
  import opened Numbers
  import opened Optional
  import opened Recorder
  import opened Overlay

  /** One decoded sample: (t, x, y, click, keys); the frame column is dropped. */
  datatype Row = Row(t: real, x: int, y: int, click: string, keys: string)

  // ---------------------------------------------------------------- reading the file

  /** Text-mode reading turns `\r\n` and a lone `\r` into `\n`. */
  function NormalizeNewlines(s: string): (r: string)
    ensures '\r' !in r
    ensures '\r' !in s ==> r == s
  {
    if |s| == 0 then ""
    else if s[0] == '\r' then "\n" + NormalizeNewlines(if |s| > 1 && s[1] == '\n' then s[2..] else s[1..])
    else [s[0]] + NormalizeNewlines(s[1..])
  }

  /** The lines `for line in f` yields, each without its line break. */
  function Lines(c: string): (ls: seq<string>)
    ensures forall i :: 0 <= i < |ls| ==> '\n' !in ls[i]
  {
    if c == "" then []
    else
      var p := Split(c, '\n');
      if p[|p| - 1] == "" then p[..|p| - 1] else p
  }

  /** One line: at least four tab fields after stripping, a float time and
      integer x and y; click and keys default to `"None"` when absent. */
  function ParseLine(line: string): (r: Option<Row>)
  {
    ParseFields(Split(Strip(line), '\t'))
  }

  function ParseFields(parts: seq<string>): (r: Option<Row>)
  {
    if |parts| >= 4 then
      var t, x, y := ParseFloat(parts[0]), ParseInt(parts[2]), ParseInt(parts[3]);
      if t.Some? && x.Some? && y.Some? then
        Some(Row(t.value, x.value, y.value,
                 if |parts| > 4 then parts[4] else "None",
                 if |parts| > 5 then parts[5] else "None"))
      else None
    else None
  }

  /** The parsed lines, in order; a line that does not parse is skipped. */
  function ParseRows(lines: seq<string>): (rows: seq<Row>)
    ensures |rows| <= |lines|
  {
    FilterMap(ParseLine, lines)
  }

  /** Keeps the results of `f` that are present, in order. */
  function FilterMap<A, B>(f: A -> Option<B>, xs: seq<A>): (ys: seq<B>)
    ensures |ys| <= |xs|
  {
    if |xs| == 0 then []
    else
      match f(xs[0])
      case Some(y) => [y] + FilterMap(f, xs[1..])
      case None => FilterMap(f, xs[1..])
  }

  /** Lines parse independently: the rows of two blocks are the rows of each. */
  lemma {:induction false} FilterMapAppend<A, B>(f: A -> Option<B>, a: seq<A>, b: seq<A>)
    ensures FilterMap(f, a + b) == FilterMap(f, a) + FilterMap(f, b)
  {
    if |a| > 0 {
      assert (a + b)[1..] == a[1..] + b;
      FilterMapAppend(f, a[1..], b);
    } else {
      assert a + b == b;
    }
  }

  /** Every kept result comes from some element. */
  lemma {:induction false} FilterMapFrom<A, B>(f: A -> Option<B>, xs: seq<A>, i: nat)
    requires i < |FilterMap(f, xs)|
    ensures exists k :: 0 <= k < |xs| && f(xs[k]) == Some(FilterMap(f, xs)[i])
  {
    var rest := FilterMap(f, xs[1..]);
    if f(xs[0]).Some? && i == 0 {
      assert f(xs[0]) == Some(FilterMap(f, xs)[0]);
    } else {
      var j := if f(xs[0]).Some? then i - 1 else i;
      assert FilterMap(f, xs)[i] == rest[j];
      FilterMapFrom(f, xs[1..], j);
      var k :| 0 <= k < |xs[1..]| && f(xs[1..][k]) == Some(rest[j]);
      assert f(xs[k + 1]) == Some(FilterMap(f, xs)[i]);
    }
  }

  /** Every row kept comes from a line of the file that parses to it. */
  lemma ParseRowsFrom(lines: seq<string>, i: nat)
    requires i < |ParseRows(lines)|
    ensures exists k :: 0 <= k < |lines| && ParseLine(lines[k]) == Some(ParseRows(lines)[i])
  {
    FilterMapFrom(ParseLine, lines, i);
  }

  /** Parsing two blocks of lines gives the rows of each, one after the other. */
  lemma ParseRowsAppend(a: seq<string>, b: seq<string>)
    ensures ParseRows(a + b) == ParseRows(a) + ParseRows(b)
  {
    FilterMapAppend(ParseLine, a, b);
  }

  /** `load_trajectory` on the file's text: the first line (the header) is skipped. */
  function Decode(content: string): seq<Row> {
    var ls := Lines(NormalizeNewlines(content));
    if |ls| == 0 then [] else ParseRows(ls[1..])
  }

  /** `load_trajectory`: nothing without a video or without the TSV beside it. */
  function LoadTrajectory(videoPath: string, files: map<string, string>): (rows: seq<Row>)
    ensures videoPath == "" || TsvPath(videoPath) !in files ==> rows == []
  {
    if videoPath == "" then []
    else if TsvPath(videoPath) in files then Decode(files[TsvPath(videoPath)])
    else []
  }

  // ---------------------------------------------------------------- round trip

  /** What the decoder should give back for a buffered sample. */
  function ToRow(s: Sample): Row {
    Row(s.timeMs as real / 1000.0, s.x, s.y, s.click, s.keys)
  }

  function ToRows(b: seq<Sample>): (rows: seq<Row>)
    ensures |rows| == |b|
    ensures forall i :: 0 <= i < |b| ==> rows[i] == ToRow(b[i])
  {
    seq(|b|, i requires 0 <= i < |b| => ToRow(b[i]))
  }

  predicate NoBreaks(f: string) {
    '\t' !in f && '\n' !in f && '\r' !in f
  }

  /** The click and keys columns survive the file: no tabs or line breaks, and a
      keys column that stripping the line cannot shorten. */
  predicate FieldsOk(s: Sample) {
    NoBreaks(s.click) && NoBreaks(s.keys) && |s.keys| > 0 && !IsSpace(s.keys[|s.keys| - 1])
  }

  function RowLines(b: seq<Sample>): (ls: seq<string>)
    ensures |ls| == |b|
    ensures forall i :: 0 <= i < |b| ==> ls[i] == RowLine(b[i])
  {
    seq(|b|, i requires 0 <= i < |b| => RowLine(b[i]))
  }

  lemma {:induction false} JoinSnoc(sep: string, parts: seq<string>, x: string)
    requires |parts| >= 1
    ensures Join(sep, parts + [x]) == Join(sep, parts) + sep + x
  {
    if |parts| == 1 {
      assert (parts + [x])[1..] == [x];
    } else {
      assert (parts + [x])[1..] == parts[1..] + [x];
      JoinSnoc(sep, parts[1..], x);
    }
  }

  lemma {:induction false} JoinFirst(sep: string, parts: seq<string>)
    requires |parts| >= 1 && |parts[0]| > 0
    ensures |Join(sep, parts)| > 0 && Join(sep, parts)[0] == parts[0][0]
  {
  }

  lemma {:induction false} JoinLast(sep: string, parts: seq<string>)
    requires |parts| >= 1 && |parts[|parts| - 1]| > 0
    ensures var j := Join(sep, parts); var l := parts[|parts| - 1];
      |j| > 0 && j[|j| - 1] == l[|l| - 1]
  {
    if |parts| > 1 {
      var init := parts[..|parts| - 1];
      assert parts == init + [parts[|parts| - 1]];
      JoinSnoc(sep, init, parts[|parts| - 1]);
    }
  }

  lemma {:induction false} JoinNoChar(sep: string, parts: seq<string>, c: char)
    requires c !in sep && forall i :: 0 <= i < |parts| ==> c !in parts[i]
    ensures c !in Join(sep, parts)
  {
    if |parts| > 1 {
      JoinNoChar(sep, parts[1..], c);
    }
  }

  /** The file written by the recorder is its lines joined by line breaks, with a final break. */
  lemma {:induction false} RowsJoin(b: seq<Sample>)
    requires |b| > 0
    ensures Rows(b) == Join("\n", RowLines(b)) + "\n"
  {
    if |b| > 1 {
      RowsJoin(b[1..]);
      assert RowLines(b)[1..] == RowLines(b[1..]);
    }
  }

  lemma ContentJoin(b: seq<Sample>)
    ensures TsvContent(b) == Join("\n", [Header] + RowLines(b)) + "\n"
  {
    if |b| > 0 {
      RowsJoin(b);
      assert ([Header] + RowLines(b))[1..] == RowLines(b);
    }
  }

  lemma LinesOfJoin(ls: seq<string>)
    requires |ls| >= 1 && forall i :: 0 <= i < |ls| ==> '\n' !in ls[i]
    ensures Lines(Join("\n", ls) + "\n") == ls
  {
    var c := Join("\n", ls) + "\n";
    SplitTerminated(ls);
    assert c != "" by { assert c[|c| - 1] == '\n'; }
    assert (ls + [""])[..|ls|] == ls;
  }

  /** Splitting newline-terminated lines leaves one empty piece after the last. */
  lemma SplitTerminated(ls: seq<string>)
    requires |ls| >= 1 && forall i :: 0 <= i < |ls| ==> '\n' !in ls[i]
    ensures Split(Join("\n", ls) + "\n", '\n') == ls + [""]
  {
    JoinSnoc("\n", ls, "");
    assert "\n" == ['\n'];
    assert Join("\n", ls) + "\n" + "" == Join("\n", ls) + "\n";
    var all := ls + [""];
    assert forall i :: 0 <= i < |all| ==> '\n' !in all[i] by {
      forall i | 0 <= i < |all| ensures '\n' !in all[i] {
        if i < |ls| { assert all[i] == ls[i]; }
      }
    }
    SplitJoin(all, '\n');
  }

  /** `repr` of a three-decimal time writes only digits and one point. */
  lemma FormatMilliChars(ms: nat)
    ensures |FormatMilli(ms)| > 0 && IsDigit(FormatMilli(ms)[0])
    ensures NoBreaks(FormatMilli(ms))
  {
    var w, f := NatToString(ms / 1000), MilliFrac(ms % 1000);
    assert FormatMilli(ms) == w + "." + f;
    assert forall i :: 0 <= i < |w + "." + f| ==> IsDigit((w + "." + f)[i]) || (w + "." + f)[i] == '.';
  }

  lemma IntToStringChars(n: int)
    ensures NoBreaks(IntToString(n))
  {
    PadIntChars(n, 0);
  }

  /** Tab-joined fields with no tabs and no whitespace at the outer ends split back apart. */
  lemma SplitTabLine(fs: seq<string>)
    requires |fs| >= 1 && forall i :: 0 <= i < |fs| ==> '\t' !in fs[i]
    requires |fs[0]| > 0 && !IsSpace(fs[0][0])
    requires |fs[|fs| - 1]| > 0 && !IsSpace(fs[|fs| - 1][|fs[|fs| - 1]| - 1])
    ensures Split(Strip(Join("\t", fs)), '\t') == fs
  {
    var line := Join("\t", fs);
    JoinFirst("\t", fs);
    JoinLast("\t", fs);
    StripNoop(line);
    assert "\t" == ['\t'];
    SplitJoin(fs, '\t');
  }

  lemma ParseRowLine(s: Sample)
    requires FieldsOk(s)
    ensures ParseLine(RowLine(s)) == Some(ToRow(s))
  {
    RowFieldsSplit(s);
    ParseRowFields(s);
  }

  lemma ParseRowFields(s: Sample)
    ensures ParseFields(RowFields(s)) == Some(ToRow(s))
  {
    var time, x, y := FormatMilli(s.timeMs), IntToString(s.x), IntToString(s.y);
    var t := s.timeMs as real / 1000.0;
    MilliField(time, s.timeMs, t);
    IntField(x, s.x);
    IntField(y, s.y);
    ParseFieldsOf(time, IntToString(s.frame), x, y, s.click, s.keys, t, s.x, s.y);
    assert RowFields(s) == [time, IntToString(s.frame), x, y, s.click, s.keys];
    assert ToRow(s) == Row(t, s.x, s.y, s.click, s.keys);
  }

  /** The time field reads back as seconds. */
  lemma MilliField(f: string, ms: nat, t: real)
    requires f == FormatMilli(ms) && t == ms as real / 1000.0
    ensures ParseFloat(f) == Some(t)
  {
    FormatMilliValue(ms, t);
  }

  /** An integer field reads back as itself. */
  lemma IntField(f: string, n: int)
    requires f == IntToString(n)
    ensures ParseInt(f) == Some(n)
  {
    ParseIntPadInt(n, 0);
  }

  /** Six fields whose first, third and fourth parse give the row of their values. */
  lemma ParseFieldsOf(time: string, frame: string, xs: string, ys: string, click: string, keys: string,
                      t: real, x: int, y: int)
    requires ParseFloat(time) == Some(t)
    requires ParseInt(xs) == Some(x) && ParseInt(ys) == Some(y)
    ensures ParseFields([time, frame, xs, ys, click, keys]) == Some(Row(t, x, y, click, keys))
  {
  }

  lemma RowFieldsSplit(s: Sample)
    requires FieldsOk(s)
    ensures Split(Strip(RowLine(s)), '\t') == RowFields(s)
  {
    var fs := RowFields(s);
    FormatMilliChars(s.timeMs);
    IntToStringChars(s.frame);
    IntToStringChars(s.x);
    IntToStringChars(s.y);
    SplitTabLine(fs);
  }

  /** When `f` succeeds on every element, FilterMap is a plain map. */
  lemma {:induction false} FilterMapAll<A, B>(f: A -> Option<B>, xs: seq<A>, ys: seq<B>)
    requires |xs| == |ys| && forall i :: 0 <= i < |xs| ==> f(xs[i]) == Some(ys[i])
    ensures FilterMap(f, xs) == ys
  {
    if |xs| > 0 {
      FilterMapAll(f, xs[1..], ys[1..]);
      assert [ys[0]] + ys[1..] == ys;
    }
  }

  lemma ParseRowLines(b: seq<Sample>)
    requires forall i :: 0 <= i < |b| ==> FieldsOk(b[i])
    ensures ParseRows(RowLines(b)) == ToRows(b)
  {
    var ls, rows := RowLines(b), ToRows(b);
    forall i | 0 <= i < |b| ensures ParseLine(ls[i]) == Some(rows[i]) {
      ParseRowLine(b[i]);
    }
    FilterMapAll(ParseLine, ls, rows);
  }

  lemma RowLineNoBreaks(s: Sample)
    requires FieldsOk(s)
    ensures '\n' !in RowLine(s) && '\r' !in RowLine(s)
  {
    FormatMilliChars(s.timeMs);
    IntToStringChars(s.frame);
    IntToStringChars(s.x);
    IntToStringChars(s.y);
    JoinNoChar("\t", RowFields(s), '\n');
    JoinNoChar("\t", RowFields(s), '\r');
  }

  /** Decoding what the recorder writes gives back every sample, in order,
      without its frame column. */
  lemma DecodeEncode(b: seq<Sample>)
    requires forall i :: 0 <= i < |b| ==> FieldsOk(b[i])
    ensures Decode(TsvContent(b)) == ToRows(b)
  {
    ContentLines(b);
    assert ([Header] + RowLines(b))[1..] == RowLines(b);
    ParseRowLines(b);
  }

  /** The lines of what the recorder writes: the header, then one line per sample. */
  lemma ContentLines(b: seq<Sample>)
    requires forall i :: 0 <= i < |b| ==> FieldsOk(b[i])
    ensures Lines(NormalizeNewlines(TsvContent(b))) == [Header] + RowLines(b)
  {
    var ls := [Header] + RowLines(b);
    LinesNoBreaks(b);
    ContentJoin(b);
    JoinNoChar("\n", ls, '\r');
    LinesOfJoin(ls);
  }

  lemma LinesNoBreaks(b: seq<Sample>)
    requires forall i :: 0 <= i < |b| ==> FieldsOk(b[i])
    ensures forall i :: 0 <= i < |[Header] + RowLines(b)| ==>
      '\n' !in ([Header] + RowLines(b))[i] && '\r' !in ([Header] + RowLines(b))[i]
  {
    var ls := [Header] + RowLines(b);
    forall i | 0 <= i < |ls| ensures '\n' !in ls[i] && '\r' !in ls[i] {
      if i > 0 {
        assert ls[i] == RowLine(b[i - 1]);
        RowLineNoBreaks(b[i - 1]);
      }
    }
  }

  /** Everything a capture tick records can be read back. */
  lemma SampleOfFieldsOk(t: Tick, frame: nat)
    requires t.elapsed >= 0.0
    ensures FieldsOk(SampleOf(t, frame))
  {
    ClickNoBreaks(t.pressed);
    KeysFieldOk(t.pressed);
  }

  lemma ClickNoBreaks(pressed: set<int>)
    ensures NoBreaks(ClickInfo(pressed))
  {
    var c := ClickInfo(pressed);
    if c != "None" {
      assert forall i :: 0 <= i < |c| ==> IsButtonLetter(c[i]);
    }
  }

  lemma KeysFieldOk(pressed: set<int>)
    ensures var f := KeysField(KeysDown(pressed));
      NoBreaks(f) && |f| > 0 && !IsSpace(f[|f| - 1])
  {
    var names := KeysDown(pressed);
    if |names| > 0 {
      forall i | 0 <= i < |names|
        ensures |names[i]| > 0 && NoBreaks(names[i]) && NoSpaceAtEnds(names[i])
      {
        KeyNameChars(DownFrom(pressed, 0)[i]);
      }
      NamesJoinOk(names);
    }
  }

  lemma NamesJoinOk(names: seq<string>)
    requires |names| > 0
    requires forall i :: 0 <= i < |names| ==> |names[i]| > 0 && NoBreaks(names[i]) && NoSpaceAtEnds(names[i])
    ensures var f := Join(",", names); NoBreaks(f) && |f| > 0 && !IsSpace(f[|f| - 1])
  {
    JoinNoChar(",", names, '\t');
    JoinNoChar(",", names, '\n');
    JoinNoChar(",", names, '\r');
    JoinLast(",", names);
  }

  /** Saving a recording and opening its video in the editor gives back the
      recorded samples, in order. */
  lemma RecordThenLoad(r: RecorderState, files: map<string, string>)
    requires SaveTrajectoryTsv(r).Some?
    requires var (path, content) := SaveTrajectoryTsv(r).value; path in files && files[path] == content
    requires forall i :: 0 <= i < |r.buffer| ==> FieldsOk(r.buffer[i])
    ensures LoadTrajectory(r.outPath, files) == ToRows(r.buffer)
  {
    DecodeEncode(r.buffer);
  }

  // ---------------------------------------------------------------- selection

  function RealAbs(x: real): real {
    if x < 0.0 then -x else x
  }

  /** A row is shown for the playhead when it lies strictly within one frame period. */
  predicate Near(row: Row, now: real, fps: real)
    requires fps > 0.0
  {
    RealAbs(row.t - now) < 1.0 / fps
  }

  function FindFrom(rows: seq<Row>, now: real, fps: real, i: nat): (r: Option<nat>)
    requires fps > 0.0 && i <= |rows|
    ensures r.Some? ==> (i <= r.value < |rows| && Near(rows[r.value], now, fps)
      && forall j :: i <= j < r.value ==> !Near(rows[j], now, fps))
    ensures r.None? ==> forall j :: i <= j < |rows| ==> !Near(rows[j], now, fps)
    decreases |rows| - i
  {
    if i == |rows| then None
    else if Near(rows[i], now, fps) then Some(i)
    else FindFrom(rows, now, fps, i + 1)
  }

  /** The sample for the playhead: the first one within a frame period, if any. */
  function FindSample(rows: seq<Row>, now: real, fps: real): (r: Option<nat>)
    requires fps > 0.0
    ensures r.Some? ==> (r.value < |rows| && Near(rows[r.value], now, fps)
      && forall j :: 0 <= j < r.value ==> !Near(rows[j], now, fps))
    ensures r.None? ==> forall j :: 0 <= j < |rows| ==> !Near(rows[j], now, fps)
  {
    FindFrom(rows, now, fps, 0)
  }

  /** The button released between two click columns, checked L, then R, then M. */
  function Released(prev: string, cur: string): (b: Option<char>)
    ensures b.Some? ==> IsButtonLetter(b.value) && b.value in prev && b.value !in cur
    ensures b.Some? ==> forall c :: IsButtonLetter(c) && ButtonRank(c) < ButtonRank(b.value) ==> !(c in prev && c !in cur)
    ensures b.None? ==> forall c :: IsButtonLetter(c) ==> !(c in prev && c !in cur)
  {
    if 'L' in prev && 'L' !in cur then Some('L')
    else if 'R' in prev && 'R' !in cur then Some('R')
    else if 'M' in prev && 'M' !in cur then Some('M')
    else None
  }

  /** A ripple: the row at which a button was released, which one, and how long ago. */
  datatype Ripple = Ripple(index: nat, button: char, age: real)

  const Lookback: real := 0.5

  predicate Recent(rows: seq<Row>, k: nat, tCurr: real)
    requires k < |rows|
  {
    tCurr - rows[k].t <= Lookback
  }

  /** Scanning back from row `i` to row 1, stopping at the first row more than
      half a second older than the current sample. */
  function RippleScan(rows: seq<Row>, i: nat, tCurr: real): (r: Option<Ripple>)
    requires i < |rows|
    ensures r.Some? ==> (1 <= r.value.index <= i
      && Released(rows[r.value.index - 1].click, rows[r.value.index].click) == Some(r.value.button)
      && r.value.age == tCurr - rows[r.value.index].t
      && (forall k :: r.value.index <= k <= i ==> Recent(rows, k, tCurr))
      && (forall k :: r.value.index < k <= i ==> Released(rows[k - 1].click, rows[k].click).None?))
    ensures r.None? ==> (forall k :: (1 <= k <= i && (forall m :: k <= m <= i ==> Recent(rows, m, tCurr)))
                                     ==> Released(rows[k - 1].click, rows[k].click).None?)
    decreases i
  {
    if i == 0 then None
    else if !Recent(rows, i, tCurr) then None
    else
      match Released(rows[i - 1].click, rows[i].click)
      case Some(b) => Some(Ripple(i, b, tCurr - rows[i].t))
      case None => RippleScan(rows, i - 1, tCurr)
  }

  /** The click and keys the subtitle uses: those of the chosen sample, or, when
      none is chosen, those of the last row (the loop variables keep their last values). */
  function SubtitleSource(rows: seq<Row>, now: real, fps: real): (ck: (string, string))
    requires fps > 0.0 && |rows| > 0
    ensures FindSample(rows, now, fps).Some? ==>
      ck == (rows[FindSample(rows, now, fps).value].click, rows[FindSample(rows, now, fps).value].keys)
    ensures FindSample(rows, now, fps).None? ==> ck == (rows[|rows| - 1].click, rows[|rows| - 1].keys)
  {
    match FindSample(rows, now, fps)
    case Some(i) => (rows[i].click, rows[i].keys)
    case None => (rows[|rows| - 1].click, rows[|rows| - 1].keys)
  }

  /** What one overlay refresh decides: the sample, the ripple, the history after
      the update, and the (text, age) pairs handed to the drawing. */
  datatype FrameOverlay = FrameOverlay(sample: Option<nat>, ripple: Option<Ripple>,
                                       history: History, shown: seq<(string, real)>)

  /** `update_canvas_overlay` without the drawing. */
  function UpdateOverlay(rows: seq<Row>, now: real, fps: real, showTrajectory: bool, showSubtitle: bool,
                         h: History, fade: real, maxStack: int): (o: FrameOverlay)
    requires fps > 0.0
    ensures !showTrajectory || |rows| == 0 ==> o == FrameOverlay(None, None, h, [])
    ensures o.ripple.Some? ==> o.sample.Some? && o.ripple.value.index <= o.sample.value
    ensures !showSubtitle ==> o.history == h && o.shown == []
    ensures maxStack >= 0 ==> |o.shown| <= maxStack
    ensures forall i :: 0 <= i < |o.shown| ==> 0.0 <= o.shown[i].1 <= fade
    ensures showTrajectory && |rows| > 0 ==>
      && o.sample == FindSample(rows, now, fps)
      && o.ripple == (if o.sample.Some? then RippleScan(rows, o.sample.value, rows[o.sample.value].t) else None)
    ensures showTrajectory && |rows| > 0 && showSubtitle ==>
      var (click, keys) := SubtitleSource(rows, now, fps);
      && o.history == Update(h, now, InputDisplayText(click, keys))
      && o.shown == TakePrefix(ActiveInputs(o.history.entries, now, fade), maxStack)
  {
    if !showTrajectory || |rows| == 0 then FrameOverlay(None, None, h, [])
    else
      var idx := FindSample(rows, now, fps);
      var ripple := if idx.Some? then RippleScan(rows, idx.value, rows[idx.value].t) else None;
      if showSubtitle then
        var (click, keys) := SubtitleSource(rows, now, fps);
        var h' := Update(h, now, InputDisplayText(click, keys));
        var active := ActiveInputs(h'.entries, now, fade);
        FrameOverlay(idx, ripple, h', TakePrefix(active, maxStack))
      else FrameOverlay(idx, ripple, h, [])
  }

  /** When the subtitle of the sample under the playhead is a combination that
      was not already held, the refresh puts it on top of the shown stack with
      age 0. */
  lemma OverlayShowsNewInput(rows: seq<Row>, now: real, fps: real, h: History, fade: real, maxStack: int)
    requires fps > 0.0 && |rows| > 0 && fade >= 0.0 && maxStack >= 1
    requires var (click, keys) := SubtitleSource(rows, now, fps);
      var text := InputDisplayText(click, keys); text != "" && h.lastText != Some(text)
    ensures var o := UpdateOverlay(rows, now, fps, true, true, h, fade, maxStack);
      var (click, keys) := SubtitleSource(rows, now, fps);
      |o.shown| > 0 && o.shown[0] == (InputDisplayText(click, keys), 0.0)
  {
    var (click, keys) := SubtitleSource(rows, now, fps);
    NewInputOnTop(h, now, InputDisplayText(click, keys), fade, maxStack);
  }

  // ---------------------------------------------------------------- recorded inputs as subtitles

  lemma OthersEmpty(kl: seq<string>)
    ensures |OthersFound(kl)| == 0 <==> forall i :: 0 <= i < |kl| ==> kl[i] in ModifierOrder
  {
    if |kl| > 0 {
      OthersEmpty(kl[1..]);
      if |OthersFound(kl)| == 0 {
        assert kl[0] in ModifierOrder;
        assert forall i :: 1 <= i < |kl| ==> kl[1..][i - 1] == kl[i];
      }
    }
  }

  lemma StrippedNamesNoop(names: seq<string>)
    requires forall i :: 0 <= i < |names| ==> |names[i]| > 0 && NoSpaceAtEnds(names[i])
    ensures StrippedNames(names) == names
  {
    if |names| > 0 {
      StripNoop(names[0]);
      StrippedNamesNoop(names[1..]);
    }
  }

  /** The keys column the recorder writes is read back as the same list of names. */
  lemma KeyListOfRecorded(pressed: set<int>)
    ensures KeyList(KeysField(KeysDown(pressed))) == KeysDown(pressed)
  {
    var ks := KeysDown(pressed);
    if |ks| > 0 {
      KeysDownNames(pressed);
      KeyListOfNames(ks);
    }
  }

  /** The names of polled keys are plain words, none of them "None". */
  lemma KeysDownNames(pressed: set<int>)
    ensures forall i :: 0 <= i < |KeysDown(pressed)| ==>
      (|KeysDown(pressed)[i]| > 0 && NoSpaceAtEnds(KeysDown(pressed)[i])
       && ',' !in KeysDown(pressed)[i] && KeysDown(pressed)[i] != "None")
  {
    var ks := KeysDown(pressed);
    var idx := DownFrom(pressed, 0);
    forall i | 0 <= i < |ks| ensures |ks[i]| > 0 && NoSpaceAtEnds(ks[i]) && ',' !in ks[i] && ks[i] != "None" {
      KeyNameChars(idx[i]);
      RankOfName(idx[i]);
      assert KeyRank("None").None?;
    }
  }

  /** A non-empty list of plain names survives the keys column unchanged. */
  lemma KeyListOfNames(ks: seq<string>)
    requires |ks| > 0
    requires forall i :: 0 <= i < |ks| ==> |ks[i]| > 0 && NoSpaceAtEnds(ks[i]) && ',' !in ks[i] && ks[i] != "None"
    ensures KeyList(KeysField(ks)) == ks
  {
    var f := KeysField(ks);
    assert Split(f, ',') == ks;
    SplitNoSep("None", ',');
    assert ks != ["None"];
    assert Split("", ',') == [""] && ks != [""];
    StrippedNamesNoop(ks);
  }

  /** A polled key is a modifier exactly when it is one of the first four. */
  lemma ModifierRank(j: nat)
    requires j < KeyCount
    ensures KeyName(j) in ModifierOrder <==> j < 4
  {
    RankOfName(j);
    if KeyName(j) in ModifierOrder {
      assert KeyName(j) == "Ctrl" || KeyName(j) == "Shift" || KeyName(j) == "Alt" || KeyName(j) == "Win";
    }
  }

  /** The subtitle for a recorded input state is empty exactly when no mouse
      button and no key other than Shift, Ctrl, Alt or Win is down. */
  lemma RecordedSubtitleEmpty(pressed: set<int>)
    ensures InputDisplayText(ClickInfo(pressed), KeysField(KeysDown(pressed))) == "" <==>
      1 !in pressed && 2 !in pressed && 4 !in pressed && forall j :: 4 <= j < KeyCount ==> !KeyDown(pressed, j)
  {
    MouseOfRecorded(pressed);
    OthersOfRecorded(pressed);
  }

  lemma MouseOfRecorded(pressed: set<int>)
    ensures |MouseFound(ClickInfo(pressed))| == 0 <==> 1 !in pressed && 2 !in pressed && 4 !in pressed
  {
    var c := ClickInfo(pressed);
    if c != "None" {
      assert c[0] in c && IsButtonLetter(c[0]);
    }
  }

  lemma OthersOfRecorded(pressed: set<int>)
    ensures |OthersFound(KeyList(KeysField(KeysDown(pressed))))| == 0 <==>
      forall j :: 4 <= j < KeyCount ==> !KeyDown(pressed, j)
  {
    KeyListOfRecorded(pressed);
    OthersEmpty(KeysDown(pressed));
    ModifiersOnlyDown(pressed);
  }

  /** Only modifiers are listed exactly when no polled key past the first four
      is down. */
  lemma ModifiersOnlyDown(pressed: set<int>)
    ensures (forall i :: 0 <= i < |KeysDown(pressed)| ==> KeysDown(pressed)[i] in ModifierOrder) <==>
      forall j :: 4 <= j < KeyCount ==> !KeyDown(pressed, j)
  {
    var ks := KeysDown(pressed);
    var idx := DownFrom(pressed, 0);
    forall i | 0 <= i < |ks| ensures ks[i] in ModifierOrder <==> idx[i] < 4 {
      ModifierRank(idx[i]);
    }
    if forall i :: 0 <= i < |ks| ==> ks[i] in ModifierOrder {
      assert forall j :: 4 <= j < KeyCount ==> !KeyDown(pressed, j);
    } else {
      var i :| 0 <= i < |ks| && ks[i] !in ModifierOrder;
      assert KeyDown(pressed, idx[i]) && 4 <= idx[i];
    }
  }
}
