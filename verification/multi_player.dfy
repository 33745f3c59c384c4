/** The multi-video player (src/multi_video_player.py): the grid the players
    are laid out on, each player's frame position, and the global clock that
    keeps them in step. Decoding is not modelled: a video of n frames reads
    frame i exactly when 0 <= i < n. */
module MultiPlayer {
  import opened Numbers

  // -------------------------------------------------------------- the grid

  /** At most this many players are created. */
  const MaxPlayers: nat := 16

  /** `_setup_ui`: rows and columns for n videos. */
  function GridSize(n: nat): (g: (nat, nat))
    ensures g.1 > 0
    ensures n <= MaxPlayers ==> n <= g.0 * g.1
    ensures g.0 * g.1 <= 16
    ensures n > 2 ==> (g.0 - 1) * g.1 < n || g.0 * (g.1 - 1) < n
  {
    if n <= 2 then (1, 2)
    else if n <= 4 then (2, 2)
    else if n <= 6 then (2, 3)
    else if n <= 9 then (3, 3)
    else if n <= 12 then (3, 4)
    else (4, 4)
  }

  /** The cell of the i-th player: row `i // cols`, column `i % cols`. */
  function Cell(i: nat, n: nat): (c: (nat, nat))
    ensures i < n && i < MaxPlayers ==> c.0 < GridSize(n).0 && c.1 < GridSize(n).1
  {
    var g := GridSize(n);
    var cols := g.1;
    if i < n && i < MaxPlayers then
      CellInGrid(i, g.0, cols, if n <= MaxPlayers then n else MaxPlayers);
      (i / cols, i % cols)
    else (i / cols, i % cols)
  }

  lemma CellInGrid(i: nat, rows: nat, cols: nat, n: nat)
    requires cols > 0 && i < n && n <= rows * cols
    ensures i / cols < rows && i % cols < cols
  {
    assert (i / cols) * cols <= i;
    MulLess(i / cols, rows, cols);
  }

  lemma MulLess(a: nat, b: nat, c: nat)
    requires c > 0 && a * c < b * c
    ensures a < b
  {
  }

  /** Two players never share a cell. */
  lemma CellsDistinct(i: nat, j: nat, n: nat)
    requires i != j
    ensures Cell(i, n) != Cell(j, n)
  {
    var cols := GridSize(n).1;
    assert i == (i / cols) * cols + i % cols;
    assert j == (j / cols) * cols + j % cols;
  }

  // ------------------------------------------------------------ one player

  /** A player: its frame count and rate, the last frame shown, whether it hit
      the end, and whether it plays on its own. */
  datatype Player = Player(totalFrames: int, fps: real, current: int, finished: bool, playing: bool)

  /** What opening a file gives: whether it opened, the frame count and rate. */
  datatype Source = Source(isOpen: bool, frameCount: int, rate: real)

  /** `max(0, min(frame_idx, total_frames - 1))` */
  function ClampFrame(idx: int, total: int): (r: int)
    ensures 0 <= r && (total > 0 ==> r < total)
    ensures 0 <= idx < total ==> r == idx
    ensures total > 0 && idx >= total ==> r == total - 1
    ensures idx < 0 ==> r == 0
  {
    var m := if idx < total - 1 then idx else total - 1;
    if m > 0 then m else 0
  }

  /** `VideoPlayerWidget.seek`: the index is clamped into the video; the player
      is finished when that frame cannot be read, which happens only for an
      empty video. */
  function Seek(p: Player, idx: int): (r: Player)
    ensures r.totalFrames == p.totalFrames && r.fps == p.fps && r.playing == p.playing
    ensures r.current == ClampFrame(idx, p.totalFrames)
    ensures r.finished <==> p.totalFrames <= 0
  {
    p.(current := ClampFrame(idx, p.totalFrames), finished := p.totalFrames <= 0)
  }

  /** `_load_video` followed by the rest of the constructor: a rate of zero or
      less becomes 30, the first frame is shown, and the player is paused. A file
      that does not open keeps no frames and the default rate. */
  function Load(s: Source): (p: Player)
    ensures p.fps > 0.0 && !p.playing && p.current == 0
    ensures s.isOpen ==> p.totalFrames == s.frameCount
    ensures s.isOpen && s.rate > 0.0 ==> p.fps == s.rate
    ensures !s.isOpen ==> p.totalFrames == 0 && !p.finished
  {
    if !s.isOpen then Player(0, 30.0, 0, false, false)
    else
      var fps := if s.rate <= 0.0 then 30.0 else s.rate;
      Seek(Player(s.frameCount, fps, 0, false, false), 0).(playing := false)
  }

  /** `VideoPlayerWidget.step`: a playing player advances one frame, or is
      finished on its last frame. */
  function Step(p: Player): (r: Player)
    ensures !p.playing ==> r == p
    ensures p.playing && p.current < p.totalFrames - 1 ==> r == p.(current := p.current + 1)
    ensures p.playing && p.current >= p.totalFrames - 1 ==> r == p.(finished := true)
  {
    if !p.playing then p
    else if p.current < p.totalFrames - 1 then p.(current := p.current + 1)
    else p.(finished := true)
  }

  /** The length in seconds of `total_frames / fps`, 0 without a positive rate. */
  function Duration(total: int, fps: real): (d: real)
    ensures total >= 0 ==> d >= 0.0
    ensures fps <= 0.0 ==> d == 0.0
  {
    if fps > 0.0 then
      DivNonNeg(total as real, fps);
      total as real / fps
    else 0.0
  }

  lemma DivNonNeg(a: real, b: real)
    requires b > 0.0
    ensures a >= 0.0 ==> a / b >= 0.0
  {
  }

  // --------------------------------------------------------------- manager

  /** The manager: its players, the longest duration reported, the global
      time, and whether global playback is on. */
  datatype Manager = Manager(players: seq<Player>, maxDuration: real, time: real, globalPlaying: bool)

  /** The longest duration among the opened sources, from 0; `_on_video_info`
      runs once for each player whose file opened. */
  function LongestDuration(sources: seq<Source>): (d: real)
    ensures d >= 0.0
    ensures forall i :: 0 <= i < |sources| && sources[i].isOpen ==> Duration(sources[i].frameCount, Load(sources[i]).fps) <= d
    ensures d == 0.0 || exists i :: 0 <= i < |sources| && sources[i].isOpen && d == Duration(sources[i].frameCount, Load(sources[i]).fps)
  {
    if |sources| == 0 then 0.0
    else
      var rest := LongestDuration(sources[..|sources| - 1]);
      var last := sources[|sources| - 1];
      var d := Duration(last.frameCount, Load(last).fps);
      if last.isOpen && d > rest then d else rest
  }

  /** `MultiVideoManager.__init__`: a player for each of the first 16 paths, and
      the longest duration among them. */
  function Open(sources: seq<Source>): (m: Manager)
    ensures |m.players| == if |sources| <= MaxPlayers then |sources| else MaxPlayers
    ensures forall i :: 0 <= i < |m.players| ==> m.players[i] == Load(sources[i])
    ensures m.time == 0.0 && !m.globalPlaying && m.maxDuration >= 0.0
  {
    var used := if |sources| <= MaxPlayers then sources else sources[..MaxPlayers];
    Manager(seq(|used|, i requires 0 <= i < |used| => Load(used[i])), LongestDuration(used), 0.0, false)
  }

  /** `get_progress_ratio` */
  function Progress(m: Manager): (r: real)
    ensures r <= 1.0
    ensures m.maxDuration <= 0.0 ==> r == 0.0
    ensures m.time >= 0.0 ==> r >= 0.0
    ensures m.maxDuration > 0.0 && 0.0 <= m.time <= m.maxDuration ==> r * m.maxDuration == m.time
  {
    if m.maxDuration <= 0.0 then 0.0
    else
      var q := m.time / m.maxDuration;
      DivMul(m.time, m.maxDuration);
      if q < 1.0 then q else 1.0
  }

  lemma DivMul(a: real, b: real)
    requires b > 0.0
    ensures (a / b) * b == a
    ensures a >= 0.0 ==> a / b >= 0.0
    ensures a <= b ==> a / b <= 1.0
    ensures a > b ==> a / b > 1.0
    ensures a / b == 1.0 ==> a == b
  {
  }

  /** `int(t * fps)`: the frame shown at time t. */
  function FrameAt(t: real, fps: real): int {
    Trunc(t * fps)
  }

  /** `seek_all_by_ratio`: the global time becomes that fraction of the longest
      duration and each player seeks to the frame of that time at its own rate. */
  function SeekAllByRatio(m: Manager, ratio: real): (r: Manager)
    ensures r.maxDuration == m.maxDuration && r.globalPlaying == m.globalPlaying
    ensures r.time == m.maxDuration * ratio
    ensures |r.players| == |m.players|
    ensures forall i :: 0 <= i < |r.players| ==>
      r.players[i].current == ClampFrame(FrameAt(m.maxDuration * ratio, m.players[i].fps), m.players[i].totalFrames)
  {
    var t := m.maxDuration * ratio;
    var ps := seq(|m.players|, i requires 0 <= i < |m.players| => Seek(m.players[i], FrameAt(t, m.players[i].fps)));
    m.(time := t, players := ps)
  }

  /** Seeking to a fraction of a positive longest duration shows that fraction
      as the progress. */
  lemma ProgressAfterSeek(m: Manager, ratio: real)
    requires m.maxDuration > 0.0 && 0.0 <= ratio <= 1.0
    ensures Progress(SeekAllByRatio(m, ratio)) == ratio
  {
    var r := SeekAllByRatio(m, ratio);
    assert r.maxDuration == m.maxDuration;
    MulDivBack(m.maxDuration, ratio);
    assert r.time / r.maxDuration == ratio;
  }

  lemma MulDivBack(d: real, c: real)
    requires d > 0.0
    ensures (d * c) / d == c
  {
  }

  /** The global time step, `1.0 / base_fps` with a base rate of 30. */
  const GlobalStep: real := 1.0 / 30.0

  /** One player in a global step at time t: inside its video it seeks to the
      frame of t when it shows another one; past its end it is finished. */
  function SyncPlayer(p: Player, t: real): (r: Player)
    ensures r.totalFrames == p.totalFrames && r.fps == p.fps && r.playing == p.playing
    ensures t > Duration(p.totalFrames, p.fps) ==> r == p.(finished := true)
    ensures (t <= Duration(p.totalFrames, p.fps) ==>
      r.current == ClampFrame(FrameAt(t, p.fps), p.totalFrames)
      || (r == p && p.current == FrameAt(t, p.fps)))
  {
    if t <= Duration(p.totalFrames, p.fps) then
      var e := FrameAt(t, p.fps);
      if e != p.current then Seek(p, e) else p
    else p.(finished := true)
  }

  /** `on_global_step`. In global playback the time advances by 1/30 s up to
      the longest duration, every player follows it, and the result says
      whether the end is not yet reached. Otherwise each player that plays and
      is not finished steps on its own, and the result says whether any did. */
  function OnGlobalStep(m: Manager): (r: (Manager, bool))
    ensures r.0.maxDuration == m.maxDuration && r.0.globalPlaying == m.globalPlaying
    ensures |r.0.players| == |m.players|
    ensures (m.globalPlaying ==>
      r.0.time <= m.maxDuration
      && (r.0.time == m.time + GlobalStep || r.0.time == m.maxDuration)
      && (m.time + GlobalStep <= m.maxDuration ==> r.0.time == m.time + GlobalStep)
      && (r.1 <==> r.0.time < m.maxDuration)
      && forall i :: 0 <= i < |m.players| ==> r.0.players[i] == SyncPlayer(m.players[i], r.0.time))
    ensures (!m.globalPlaying ==>
      r.0.time == m.time
      && (r.1 <==> exists i :: 0 <= i < |m.players| && Active(m.players[i]))
      && forall i :: 0 <= i < |m.players| ==>
        r.0.players[i] == if Active(m.players[i]) then Step(m.players[i]) else m.players[i])
  {
    if m.globalPlaying then
      var t0 := m.time + GlobalStep;
      var t := if t0 > m.maxDuration then m.maxDuration else t0;
      var ps := seq(|m.players|, i requires 0 <= i < |m.players| => SyncPlayer(m.players[i], t));
      (m.(time := t, players := ps), !(t >= m.maxDuration))
    else
      var ps := seq(|m.players|, i requires 0 <= i < |m.players| =>
        if Active(m.players[i]) then Step(m.players[i]) else m.players[i]);
      (m.(players := ps), AnyActive(m.players))
  }

  /** A player the paused global step moves: playing and not finished. */
  predicate Active(p: Player) {
    p.playing && !p.finished
  }

  function AnyActive(ps: seq<Player>): (b: bool)
    ensures b <==> exists i :: 0 <= i < |ps| && Active(ps[i])
  {
    if |ps| == 0 then false
    else
      assert forall i :: 0 < i < |ps| ==> ps[i] == ps[1..][i - 1];
      Active(ps[0]) || AnyActive(ps[1..])
  }

  /** Global playback from a time inside the longest duration reaches the end
      after at most `n` steps when n steps of 1/30 s cover what is left, and the
      global time never passes it on the way. */
  lemma {:induction false} GlobalPlayEnds(m: Manager, n: nat)
    requires m.globalPlaying && m.time <= m.maxDuration
    requires m.time + (n as real) * GlobalStep >= m.maxDuration
    ensures EndTime(m, n) == m.maxDuration
    decreases n
  {
    if n == 0 {
    } else {
      var r := OnGlobalStep(m).0;
      if r.time < m.maxDuration {
        assert r.time == m.time + GlobalStep;
        assert r.time + ((n - 1) as real) * GlobalStep == m.time + (n as real) * GlobalStep;
        GlobalPlayEnds(r, n - 1);
      }
    }
  }

  /** The global time after up to n global steps, stopping once a step says
      the end is reached. */
  function EndTime(m: Manager, n: nat): (t: real)
    requires m.globalPlaying
    decreases n
  {
    if n == 0 then m.time
    else
      var (r, more) := OnGlobalStep(m);
      if more then EndTime(r, n - 1) else r.time
  }
}
