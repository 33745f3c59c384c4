/** The recording side of the input log (recorder_core.py): the state of the
    buttons and keys sampled on every written video frame, the sample buffer,
    the TSV it is saved as, the even frame size and the recording flag. The
    Win32 polling (`GetAsyncKeyState`, `GetCursorPos`) becomes a set of pressed
    virtual-key codes and a cursor position passed in. */
module Recorder {
  import opened Text
  import opened Numbers
  import opened Optional

  // ---------------------------------------------------------------- buttons

  /** Position of a click letter in the fixed L, R, M order. */
  function ButtonRank(c: char): nat {
    if c == 'L' then 0 else if c == 'R' then 1 else 2
  }

  predicate IsButtonLetter(c: char) {
    c == 'L' || c == 'R' || c == 'M'
  }

  /** The click column: one letter per pressed mouse button (virtual keys 1, 2
      and 4), or `"None"` when no button is down. */
  function ClickInfo(pressed: set<int>): (c: string)
    ensures c == "None" <==> 1 !in pressed && 2 !in pressed && 4 !in pressed
    ensures c != "None" ==> 1 <= |c| <= 3 && forall i :: 0 <= i < |c| ==> IsButtonLetter(c[i])
    ensures c != "None" ==> ('L' in c <==> 1 in pressed) && ('R' in c <==> 2 in pressed) && ('M' in c <==> 4 in pressed)
    ensures c != "None" ==> forall i, k :: 0 <= i < k < |c| ==> ButtonRank(c[i]) < ButtonRank(c[k])
  {
    var letters := (if 1 in pressed then "L" else "") + (if 2 in pressed then "R" else "")
      + (if 4 in pressed then "M" else "");
    if letters == "" then "None" else letters
  }

  // ---------------------------------------------------------------- keys

  /** The keys polled by name, in polling order: modifiers, then editing keys,
      then arrows. Win is pressed when either Windows key (0x5B, 0x5C) is down. */
  const NamedKeys: seq<(string, set<int>)> := [
    ("Shift", {0x10}), ("Ctrl", {0x11}), ("Alt", {0x12}), ("Win", {0x5B, 0x5C}),
    ("Enter", {0x0D}), ("Space", {0x20}), ("Esc", {0x1B}), ("BS", {0x08}),
    ("Tab", {0x09}), ("Del", {0x2E}),
    ("Left", {0x25}), ("Up", {0x26}), ("Right", {0x27}), ("Down", {0x28})
  ]

  /** 14 named keys, 26 letters A-Z (0x41-0x5A), 10 digits 0-9 (0x30-0x39). */
  const KeyCount: nat := 50

  /** The name of the `j`-th polled key. */
  function KeyName(j: nat): string
    requires j < KeyCount
  {
    if j < 14 then NamedKeys[j].0
    else if j < 40 then [(0x41 + j - 14) as char]
    else [(0x30 + j - 40) as char]
  }

  /** The virtual-key codes that make the `j`-th key count as pressed. */
  function KeyCodes(j: nat): set<int>
    requires j < KeyCount
  {
    if j < 14 then NamedKeys[j].1
    else if j < 40 then {0x41 + j - 14}
    else {0x30 + j - 40}
  }

  /** Where a key name stands in the polling order, independently of the table
      above: None for names the recorder never writes. */
  function KeyRank(name: string): (r: Option<nat>)
    ensures r.Some? ==> r.value < KeyCount
  {
    if name == "Shift" then Some(0) else if name == "Ctrl" then Some(1)
    else if name == "Alt" then Some(2) else if name == "Win" then Some(3)
    else if name == "Enter" then Some(4) else if name == "Space" then Some(5)
    else if name == "Esc" then Some(6) else if name == "BS" then Some(7)
    else if name == "Tab" then Some(8) else if name == "Del" then Some(9)
    else if name == "Left" then Some(10) else if name == "Up" then Some(11)
    else if name == "Right" then Some(12) else if name == "Down" then Some(13)
    else if |name| == 1 && 'A' <= name[0] <= 'Z' then Some(14 + (name[0] as int - 0x41))
    else if |name| == 1 && '0' <= name[0] <= '9' then Some(40 + (name[0] as int - 0x30))
    else None
  }

  /** The rank of every polled key is its position. */
  lemma RankOfName(j: nat)
    requires j < KeyCount
    ensures KeyRank(KeyName(j)) == Some(j)
  {
    if 14 <= j < 40 {
      assert KeyName(j)[0] == (0x41 + j - 14) as char;
    } else if 40 <= j {
      assert KeyName(j)[0] == (0x30 + j - 40) as char;
    }
  }

  /** ... and the position of a ranked name holds that very name. */
  lemma NameOfRank(name: string)
    requires KeyRank(name).Some?
    ensures KeyName(KeyRank(name).value) == name
  {
    if |name| == 1 && 'A' <= name[0] <= 'Z' && KeyRank(name).value >= 14 {
      assert KeyName(KeyRank(name).value) == [name[0]];
    } else if |name| == 1 && '0' <= name[0] <= '9' && KeyRank(name).value >= 40 {
      assert KeyName(KeyRank(name).value) == [name[0]];
    }
  }

  predicate KeyDown(pressed: set<int>, j: nat)
    requires j < KeyCount
  {
    KeyCodes(j) * pressed != {}
  }

  /** The positions of the pressed keys among the `j`-th and later ones, in
      polling order. */
  function DownFrom(pressed: set<int>, j: nat): (idx: seq<nat>)
    requires j <= KeyCount
    ensures forall i :: 0 <= i < |idx| ==> j <= idx[i] < KeyCount && KeyDown(pressed, idx[i])
    ensures forall i, i' :: 0 <= i < i' < |idx| ==> idx[i] < idx[i']
    ensures forall k :: j <= k < KeyCount && KeyDown(pressed, k) ==> k in idx
    decreases KeyCount - j
  {
    if j == KeyCount then []
    else if KeyDown(pressed, j) then [j] + DownFrom(pressed, j + 1)
    else DownFrom(pressed, j + 1)
  }

  /** The keys column before joining: the names of the pressed polled keys. */
  function KeysDown(pressed: set<int>): (ks: seq<string>)
  {
    var idx := DownFrom(pressed, 0);
    seq(|idx|, i requires 0 <= i < |idx| => KeyName(idx[i]))
  }

  /** A name is listed exactly when it is a polled key one of whose codes is down. */
  lemma KeysDownMembers(pressed: set<int>, name: string)
    ensures name in KeysDown(pressed) <==> KeyRank(name).Some? && KeyDown(pressed, KeyRank(name).value)
  {
    var idx := DownFrom(pressed, 0);
    var ks := KeysDown(pressed);
    if name in ks {
      var i :| 0 <= i < |ks| && ks[i] == name;
      RankOfName(idx[i]);
    }
    if KeyRank(name).Some? && KeyDown(pressed, KeyRank(name).value) {
      var j := KeyRank(name).value;
      NameOfRank(name);
      var i :| 0 <= i < |idx| && idx[i] == j;
      assert ks[i] == name;
    }
  }

  /** The names come in polling order: each has a rank, and ranks strictly increase. */
  lemma KeysDownOrdered(pressed: set<int>)
    ensures forall i :: 0 <= i < |KeysDown(pressed)| ==> KeyRank(KeysDown(pressed)[i]).Some?
    ensures forall i, i' :: 0 <= i < i' < |KeysDown(pressed)| ==>
      KeyRank(KeysDown(pressed)[i]).Some? && KeyRank(KeysDown(pressed)[i']).Some? &&
      KeyRank(KeysDown(pressed)[i]).value < KeyRank(KeysDown(pressed)[i']).value
  {
    var idx := DownFrom(pressed, 0);
    var ks := KeysDown(pressed);
    forall i | 0 <= i < |ks| ensures KeyRank(ks[i]) == Some(idx[i]) {
      RankOfName(idx[i]);
    }
  }

  /** No name is listed twice, so Win appears once even with both Windows keys down. */
  lemma KeysDownDistinct(pressed: set<int>)
    ensures forall i, i' :: 0 <= i < i' < |KeysDown(pressed)| ==> KeysDown(pressed)[i] != KeysDown(pressed)[i']
  {
    KeysDownOrdered(pressed);
  }

  /** Every key name the recorder writes is free of the characters that would
      break the TSV and the comma-joined column. */
  lemma KeyNameChars(j: nat)
    requires j < KeyCount
    ensures |KeyName(j)| > 0
    ensures ',' !in KeyName(j) && '\t' !in KeyName(j) && '\n' !in KeyName(j) && '\r' !in KeyName(j)
    ensures NoSpaceAtEnds(KeyName(j))
  {
    var k := KeyName(j);
    assert forall i :: 0 <= i < |k| ==> IsAsciiLetter(k[i]) || IsDigit(k[i]) by {
      if j < 14 {
        assert k in {"Shift", "Ctrl", "Alt", "Win", "Enter", "Space", "Esc", "BS", "Tab",
          "Del", "Left", "Up", "Right", "Down"};
      }
    }
    AlnumChars(k);
  }

  /** Letters and digits are none of the separators and no white space. */
  lemma AlnumChars(k: string)
    requires |k| > 0 && forall i :: 0 <= i < |k| ==> IsAsciiLetter(k[i]) || IsDigit(k[i])
    ensures ',' !in k && '\t' !in k && '\n' !in k && '\r' !in k
    ensures NoSpaceAtEnds(k)
  {
  }

  /** The keys column: the comma-joined names, or `"None"` for none. */
  function KeysField(ks: seq<string>): (r: string)
    ensures |ks| == 0 ==> r == "None"
    ensures |ks| > 0 && (forall i :: 0 <= i < |ks| ==> ',' !in ks[i]) ==> Split(r, ',') == ks
  {
    if |ks| == 0 then "None"
    else
      SplitJoinComma(ks);
      Join(",", ks)
  }

  lemma SplitJoinComma(ks: seq<string>)
    requires |ks| > 0
    ensures (forall i :: 0 <= i < |ks| ==> ',' !in ks[i]) ==> Split(Join(",", ks), ',') == ks
  {
    if forall i :: 0 <= i < |ks| ==> ',' !in ks[i] {
      assert [','] == ",";
      SplitJoin(ks, ',');
    }
  }

  // ---------------------------------------------------------------- samples

  /** One buffered sample: `round(elapsed, 3)` as whole milliseconds, the frame
      index, the cursor relative to the captured rectangle, and the two columns. */
  datatype Sample = Sample(timeMs: nat, frame: nat, x: int, y: int, click: string, keys: string)

  /** `round(elapsed, 3)` in milliseconds. The elapsed time is taken as never
      negative, that is, a wall clock that does not step back during a recording. */
  function TimeMs(elapsed: real): (ms: nat)
    requires elapsed >= 0.0
    ensures -0.5 <= elapsed * 1000.0 - ms as real <= 0.5
  {
    RoundHalfEven(elapsed * 1000.0)
  }

  /** A larger elapsed time never gets a smaller timestamp. */
  lemma TimeMsMonotone(a: real, b: real)
    requires 0.0 <= a <= b
    ensures TimeMs(a) <= TimeMs(b)
  {
  }

  /** One polling tick of the capture loop that reached the point of writing a
      frame: whether capture succeeded, the cursor on screen, the current
      top-left corner of the captured rectangle and the keys down. */
  datatype Tick = Tick(elapsed: real, captured: bool, cursorX: int, cursorY: int,
                       left: int, top: int, pressed: set<int>)

  /** The ticks whose frame was captured and written, in order. */
  function Captured(ticks: seq<Tick>): (r: seq<Tick>)
    ensures |r| <= |ticks|
  {
    if |ticks| == 0 then []
    else
      var last := ticks[|ticks| - 1];
      Captured(ticks[..|ticks| - 1]) + (if last.captured then [last] else [])
  }

  /** The sample recorded for a captured tick that becomes frame `frame`. */
  function SampleOf(t: Tick, frame: nat): Sample
    requires t.elapsed >= 0.0
  {
    Sample(TimeMs(t.elapsed), frame, t.cursorX - t.left, t.cursorY - t.top,
           ClickInfo(t.pressed), KeysField(KeysDown(t.pressed)))
  }

  /** The capture loop over a finite run of ticks: frames are numbered from 0 by
      one per written frame, and with TSV recording on there is one sample per
      written frame, in order. */
  method RecordLoop(ticks: seq<Tick>, recordTsv: bool) returns (buffer: seq<Sample>, frames: nat)
    requires forall i :: 0 <= i < |ticks| ==> ticks[i].elapsed >= 0.0
    ensures frames == |Captured(ticks)|
    ensures !recordTsv ==> buffer == []
    ensures recordTsv ==> |buffer| == frames && SamplesOf(buffer, Captured(ticks))
  {
    buffer, frames := [], 0;
    var k := 0;
    while k < |ticks|
      invariant 0 <= k <= |ticks|
      invariant frames == |Captured(ticks[..k])|
      invariant !recordTsv ==> buffer == []
      invariant recordTsv ==> SamplesOf(buffer, Captured(ticks[..k]))
    {
      var t := ticks[k];
      CapturedStep(ticks, k);
      if t.captured {
        if recordTsv {
          BufferStep(Captured(ticks[..k]), buffer, t);
          buffer := buffer + [SampleOf(t, frames)];
        }
        frames := frames + 1;
      }
      k := k + 1;
    }
    assert ticks[..k] == ticks;
  }

  /** The buffer holds one sample per captured tick, in order, the i-th
      numbered as frame i. */
  predicate SamplesOf(buffer: seq<Sample>, cs: seq<Tick>) {
    |buffer| == |cs|
    && forall i :: 0 <= i < |cs| ==> cs[i].elapsed >= 0.0 && buffer[i] == SampleOf(cs[i], i)
  }

  /** Appending the sample of the next captured tick keeps the buffer one sample
      per captured tick. */
  lemma BufferStep(cs: seq<Tick>, buffer: seq<Sample>, t: Tick)
    requires t.elapsed >= 0.0 && SamplesOf(buffer, cs)
    ensures SamplesOf(buffer + [SampleOf(t, |buffer|)], cs + [t])
  {
  }

  /** One more tick adds its frame when it was captured. */
  lemma CapturedStep(ticks: seq<Tick>, k: nat)
    requires k < |ticks|
    ensures Captured(ticks[..k + 1]) == Captured(ticks[..k]) + (if ticks[k].captured then [ticks[k]] else [])
  {
    assert ticks[..k + 1][..k] == ticks[..k];
  }

  /** The TSV header and the tab-separated fields of one sample's line. */
  const Header := "timestamp\tframe\tx\ty\tclick\tkeys"

  function RowFields(s: Sample): seq<string> {
    [FormatMilli(s.timeMs), IntToString(s.frame), IntToString(s.x), IntToString(s.y), s.click, s.keys]
  }

  function RowLine(s: Sample): string {
    Join("\t", RowFields(s))
  }

  /** The file body: the header line, then one line per buffered sample. */
  function Rows(buffer: seq<Sample>): string {
    if |buffer| == 0 then "" else RowLine(buffer[0]) + "\n" + Rows(buffer[1..])
  }

  function TsvContent(buffer: seq<Sample>): string {
    Header + "\n" + Rows(buffer)
  }

  /** The TSV path next to a video: its extension replaced by `.tsv`. */
  function TsvPath(videoPath: string): (p: string)
    ensures |p| >= 4 && p[|p| - 4..] == ".tsv" && IsPrefix(p[..|p| - 4], videoPath)
  {
    var root := SplitExtRoot(videoPath);
    assert (root + ".tsv")[..|root|] == root;
    root + ".tsv"
  }

  // ---------------------------------------------------------------- recorder state

  datatype RecorderState = RecorderState(recording: bool, buffer: seq<Sample>, outPath: string)

  /** `start_recording`: ignored while recording; otherwise a fresh empty buffer. */
  function Start(r: RecorderState, path: string): (r': RecorderState)
    ensures r.recording ==> r' == r
    ensures !r.recording ==> r'.recording && r'.buffer == [] && r'.outPath == path
  {
    if r.recording then r else RecorderState(true, [], path)
  }

  /** `stop_recording`: the flag drops; the buffer stays for saving. */
  function Stop(r: RecorderState): (r': RecorderState)
    ensures !r'.recording && r'.buffer == r.buffer && r'.outPath == r.outPath
  {
    r.(recording := false)
  }

  /** A second start is a no-op, whatever path it names. */
  lemma StartTwice(r: RecorderState, p: string, q: string)
    ensures Start(Start(r, p), q) == Start(r, p)
  {
  }

  /** After a stop, a start always begins a fresh recording to the new path. */
  lemma StopThenStart(r: RecorderState, p: string)
    ensures Start(Stop(r), p) == RecorderState(true, [], p)
  {
  }

  /** `save_trajectory_tsv`: nothing is written for an empty buffer or an empty
      output path; otherwise the (path, content) of the file written. */
  function SaveTrajectoryTsv(r: RecorderState): (out: Option<(string, string)>)
    ensures out.None? <==> |r.buffer| == 0 || r.outPath == ""
    ensures out.Some? ==> IsPrefix(SplitExtRoot(r.outPath), out.value.0)
  {
    if |r.buffer| == 0 || r.outPath == "" then None
    else Some((TsvPath(r.outPath), TsvContent(r.buffer)))
  }

  /** The TSV path has the `.tsv` extension and the video's root. */
  lemma TsvPathRoot(videoPath: string)
    requires var root := SplitExtRoot(videoPath);
      |root| > 0 && root[|root| - 1] != '.' && !IsPathSep(root[|root| - 1])
    ensures SplitExtRoot(TsvPath(videoPath)) == SplitExtRoot(videoPath)
  {
    SplitExtAppend(SplitExtRoot(videoPath), ".tsv");
  }

  // ---------------------------------------------------------------- frame size

  /** The encoder needs even dimensions: an odd one is reduced by one. */
  function EvenSize(n: int): (r: int)
    ensures r % 2 == 0 && r <= n && n - r <= 1
  {
    if n % 2 != 0 then n - 1 else n
  }

  /** `EvenSize` is the largest even value not above its input. */
  lemma EvenSizeLargest(n: int, m: int)
    requires m % 2 == 0 && m <= n
    ensures m <= EvenSize(n)
  {
  }
}
