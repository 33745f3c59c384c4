/** The settings side of the editor (config.py): the resolution presets, whose
    keys carry an aspect-ratio label such as `16:9 `, the merge of a loaded global
    configuration with the defaults (renaming old theme keys first), and the path
    of the per-video settings file. JSON files are not read here: a loaded file is
    given as a value. */
module Config {
  import opened Text
  import opened Numbers
  import opened Optional
  import Utils

  // ------------------------------------------------------------- ordered dicts

  /** A Python dict in insertion order. */
  type Dict<V> = seq<(string, V)>

  function KeySet<V>(d: Dict<V>): set<string> {
    set i | 0 <= i < |d| :: d[i].0
  }

  predicate DistinctKeys<V>(d: Dict<V>) {
    forall i, j :: 0 <= i < j < |d| ==> d[i].0 != d[j].0
  }

  /** The position of the first entry with key k, |d| when there is none. */
  function KeyIndex<V>(d: Dict<V>, k: string): (i: nat)
    ensures i <= |d|
    ensures i < |d| ==> d[i].0 == k
    ensures forall j :: 0 <= j < i ==> d[j].0 != k
  {
    if |d| == 0 then 0
    else if d[0].0 == k then 0
    else 1 + KeyIndex(d[1..], k)
  }

  /** `d.get(k)` */
  function Lookup<V>(d: Dict<V>, k: string): (r: Option<V>)
    ensures r.Some? <==> k in KeySet(d)
  {
    var i := KeyIndex(d, k);
    if i < |d| then Some(d[i].1)
    else
      assert forall j :: 0 <= j < |d| ==> d[j].0 != k;
      None
  }

  /** Only the keys matter for where a key is found. */
  lemma {:induction false} KeyIndexSameKeys<V>(d: Dict<V>, r: Dict<V>, k: string)
    requires |d| == |r| && forall i :: 0 <= i < |d| ==> d[i].0 == r[i].0
    ensures KeyIndex(d, k) == KeyIndex(r, k)
  {
    if |d| > 0 && d[0].0 != k {
      KeyIndexSameKeys(d[1..], r[1..], k);
    }
  }

  /** Appending a new entry does not move the keys already there. */
  lemma {:induction false} KeyIndexAppend<V>(d: Dict<V>, e: (string, V), k: string)
    ensures KeyIndex(d + [e], k) == if KeyIndex(d, k) < |d| then KeyIndex(d, k) else if e.0 == k then |d| else |d| + 1
  {
    if |d| == 0 {
      assert d + [e] == [e];
      assert ([e])[1..] == [];
    } else {
      assert (d + [e])[1..] == d[1..] + [e];
      if d[0].0 != k {
        KeyIndexAppend(d[1..], e, k);
      }
    }
  }

  /** `d[k] = v`: an existing key keeps its place, a new one goes at the end. */
  function Put<V>(d: Dict<V>, k: string, v: V): (r: Dict<V>)
    ensures Lookup(r, k) == Some(v)
    ensures forall k' :: k' != k ==> Lookup(r, k') == Lookup(d, k')
    ensures KeySet(r) == KeySet(d) + {k}
    ensures DistinctKeys(d) ==> DistinctKeys(r)
    ensures k !in KeySet(d) ==> r == d + [(k, v)]
    ensures k in KeySet(d) ==> |r| == |d|
  {
    if k in KeySet(d) then
      PutExisting(d, k, v);
      Replaced(d, k, v)
    else
      PutNew(d, k, v);
      d + [(k, v)]
  }

  /** d with the value of every entry under k replaced by v. */
  function Replaced<V>(d: Dict<V>, k: string, v: V): Dict<V> {
    seq(|d|, i requires 0 <= i < |d| => if d[i].0 == k then (k, v) else d[i])
  }

  /** What `Put` promises, for a result r. */
  ghost predicate PutSpec<V>(d: Dict<V>, k: string, v: V, r: Dict<V>) {
    && Lookup(r, k) == Some(v)
    && (forall k' :: k' != k ==> Lookup(r, k') == Lookup(d, k'))
    && KeySet(r) == KeySet(d) + {k}
    && (DistinctKeys(d) ==> DistinctKeys(r))
  }

  /** Replacing the value of a present key. */
  lemma PutExisting<V>(d: Dict<V>, k: string, v: V)
    requires k in KeySet(d)
    ensures PutSpec(d, k, v, Replaced(d, k, v)) && |Replaced(d, k, v)| == |d|
  {
    var r := Replaced(d, k, v);
    assert forall i :: 0 <= i < |d| ==> r[i].0 == d[i].0;
    assert forall k' :: KeyIndex(r, k') == KeyIndex(d, k') by {
      forall k' ensures KeyIndex(r, k') == KeyIndex(d, k') {
        KeyIndexSameKeys(d, r, k');
      }
    }
    assert KeySet(r) == KeySet(d) by {
      forall x | x in KeySet(r) ensures x in KeySet(d) {
        var j :| 0 <= j < |r| && r[j].0 == x;
        assert d[j].0 == x;
      }
      forall x | x in KeySet(d) ensures x in KeySet(r) {
        var j :| 0 <= j < |d| && d[j].0 == x;
        assert r[j].0 == x;
      }
    }
  }

  /** Adding an absent key at the end. */
  lemma PutNew<V>(d: Dict<V>, k: string, v: V)
    requires k !in KeySet(d)
    ensures PutSpec(d, k, v, d + [(k, v)])
  {
    var r := d + [(k, v)];
    assert KeySet(r) == KeySet(d) + {k} by {
      forall x | x in KeySet(r) ensures x in KeySet(d) + {k} {
        var j :| 0 <= j < |r| && r[j].0 == x;
        if j < |d| { assert d[j].0 == x; }
      }
      forall x | x in KeySet(d) + {k} ensures x in KeySet(r) {
        if x != k {
          var j :| 0 <= j < |d| && d[j].0 == x;
          assert r[j].0 == x;
        } else {
          assert r[|d|].0 == x;
        }
      }
    }
    assert forall k' :: KeyIndex(r, k') == if KeyIndex(d, k') < |d| then KeyIndex(d, k') else if k == k' then |d| else |d| + 1 by {
      forall k' ensures KeyIndex(r, k') == if KeyIndex(d, k') < |d| then KeyIndex(d, k') else if k == k' then |d| else |d| + 1 {
        KeyIndexAppend(d, (k, v), k');
      }
    }
  }

  // ---------------------------------------------------------- collision suffix

  /** `f"{base}#{n}"` */
  function Suffixed(base: string, n: nat): (k: string)
    ensures |k| > |base| + 1 && k[..|base|] == base && k[|base|] == '#' && AllDigits(k[|base| + 1..])
  {
    var k := base + "#" + NatToString(n);
    assert k[|base| + 1..] == NatToString(n);
    k
  }

  lemma SuffixedInjective(base: string, m: nat, n: nat)
    ensures m != n ==> Suffixed(base, m) != Suffixed(base, n)
  {
    if Suffixed(base, m) == Suffixed(base, n) {
      assert Suffixed(base, m)[|base| + 1..] == NatToString(m);
      assert Suffixed(base, n)[|base| + 1..] == NatToString(n);
    }
  }

  /** The smallest n ≥ start for which `base#n` is not taken. */
  function FirstFree(base: string, keys: set<string>, start: nat): (n: nat)
    requires start >= 1
    ensures n >= start && Suffixed(base, n) !in keys
    ensures forall j :: start <= j < n ==> Suffixed(base, j) in keys
    decreases keys
  {
    var k := Suffixed(base, start);
    if k in keys then
      var n := FirstFree(base, keys - {k}, start + 1);
      SuffixedInjective(base, n, start);
      n
    else start
  }

  /** The key both collision loops (config.py:319-323, src/ChulipVideo.py:1087-1091)
      settle on: `base` itself when free, else `base#n` for the smallest free n ≥ 1.
      The result is never taken, so storing under it overwrites nothing. */
  function FreshKey(base: string, keys: set<string>): (k: string)
    ensures k !in keys
    ensures base !in keys ==> k == base
    ensures base in keys ==> exists n: nat :: (n >= 1 && k == Suffixed(base, n)
      && forall j :: 1 <= j < n ==> Suffixed(base, j) in keys)
  {
    if base !in keys then base
    else Suffixed(base, FirstFree(base, keys, 1))
  }

  lemma FreshKeyPrefix(base: string, keys: set<string>)
    ensures IsPrefix(base, FreshKey(base, keys))
  {
    if base in keys {
      var k := FreshKey(base, keys);
      assert k[..|base|] == base;
    }
  }

  // -------------------------------------------------------------------- presets

  /** A preset value: the JSON list stored for a preset, each element reduced to
      what `int()` makes of it (None where `int()` raises). */
  type PresetValue = seq<Option<int>>

  type Presets = Dict<PresetValue>

  /** `w, h = int(v[0]), int(v[1])`, None when that raises. */
  function SizeOf(v: PresetValue): (r: Option<(int, int)>)
    ensures r.Some? <==> |v| >= 2 && v[0].Some? && v[1].Some?
  {
    if |v| >= 2 && v[0].Some? && v[1].Some? then Some((v[0].value, v[1].value)) else None
  }

  /** The number of leading ASCII digits of s. */
  function LeadingDigits(s: string): (n: nat)
    ensures n <= |s|
    ensures forall i :: 0 <= i < n ==> IsDigit(s[i])
    ensures n < |s| ==> !IsDigit(s[n])
  {
    if |s| == 0 || !IsDigit(s[0]) then 0 else 1 + LeadingDigits(s[1..])
  }

  /** `re.match(r'^\d+:\d+\s', k)`: the key already starts with a ratio label and
      a space. */
  predicate HasLabel(k: string) {
    var a := LeadingDigits(k);
    a > 0 && a < |k| && k[a] == ':'
    && var rest := k[a + 1..];
    var b := LeadingDigits(rest);
    b > 0 && b < |rest| && IsSpace(rest[b])
  }

  /** `f"{lbl} {k}"` */
  function Labelled(w: int, h: int, k: string): string {
    Utils.RatioLabelFromWh(w, h) + " " + k
  }

  /** One iteration of `normalize_presets`. */
  function NormalizeStep(acc: Presets, k: string, v: PresetValue): (r: Presets)
    ensures HasLabel(k) || SizeOf(v).None? ==> r == Put(acc, k, v)
    ensures !HasLabel(k) && SizeOf(v).Some? ==>
      var base := Labelled(SizeOf(v).value.0, SizeOf(v).value.1, k);
      r == acc + [(FreshKey(base, KeySet(acc)), v)]
  {
    if HasLabel(k) then Put(acc, k, v)
    else match SizeOf(v)
      case None => Put(acc, k, v)
      case Some((w, h)) => Put(acc, FreshKey(Labelled(w, h, k), KeySet(acc)), v)
  }

  /** `normalize_presets`: keys without a ratio label get one, made unique with the
      `#n` suffix; keys that have one, and entries whose value is not a size, are
      copied as they are. */
  function Normalize(p: Presets): (r: Presets)
    ensures DistinctKeys(r)
    ensures |r| <= |p|
  {
    if |p| == 0 then []
    else
      var last := p[|p| - 1];
      NormalizeStep(Normalize(p[..|p| - 1]), last.0, last.1)
  }

  /** Every key of the result comes from one input entry, so a key that no
      entry could have produced is absent. */
  lemma {:induction false} NormalizeKeysFrom(p: Presets, k: string)
    requires k in KeySet(Normalize(p))
    ensures exists i :: (0 <= i < |p| && (k == p[i].0
      || (SizeOf(p[i].1).Some? && IsPrefix(Labelled(SizeOf(p[i].1).value.0, SizeOf(p[i].1).value.1, p[i].0), k))))
  {
    var q := p[..|p| - 1];
    var (lk, lv) := p[|p| - 1];
    var acc := Normalize(q);
    if k in KeySet(acc) {
      NormalizeKeysFrom(q, k);
      var i :| 0 <= i < |q| && (k == q[i].0
        || (SizeOf(q[i].1).Some? && IsPrefix(Labelled(SizeOf(q[i].1).value.0, SizeOf(q[i].1).value.1, q[i].0), k)));
      assert q[i] == p[i];
    } else if !HasLabel(lk) && SizeOf(lv).Some? {
      var base := Labelled(SizeOf(lv).value.0, SizeOf(lv).value.1, lk);
      FreshKeyPrefix(base, KeySet(acc));
      assert k == FreshKey(base, KeySet(acc));
      assert p[|p| - 1] == (lk, lv);
    } else {
      assert k == lk;
      assert p[|p| - 1].0 == lk;
    }
  }

  /** A key written by a step is never the key of a later input entry's own
      write unless it is that entry's key; used to show copied entries survive. */
  lemma {:induction false} NormalizeKeeps(p: Presets, i: nat)
    requires DistinctKeys(p) && i < |p|
    requires HasLabel(p[i].0) || SizeOf(p[i].1).None?
    ensures Lookup(Normalize(p), p[i].0) == Some(p[i].1)
    decreases |p|
  {
    var q := p[..|p| - 1];
    var (lk, lv) := p[|p| - 1];
    if i == |p| - 1 {
      assert NormalizeStep(Normalize(q), lk, lv) == Put(Normalize(q), lk, lv);
    } else {
      assert q[i] == p[i];
      assert DistinctKeys(q);
      NormalizeKeeps(q, i);
      assert lk != p[i].0 by { assert p[|p| - 1].0 == lk; }
      StepKeeps(Normalize(q), lk, lv, p[i].0);
    }
  }

  /** A step leaves the entry of any other key that is already present alone. */
  lemma StepKeeps(acc: Presets, lk: string, lv: PresetValue, k: string)
    requires k in KeySet(acc) && lk != k
    ensures Lookup(NormalizeStep(acc, lk, lv), k) == Lookup(acc, k)
  {
    if !HasLabel(lk) && SizeOf(lv).Some? {
      var base := Labelled(SizeOf(lv).value.0, SizeOf(lv).value.1, lk);
      assert FreshKey(base, KeySet(acc)) != k;
    }
  }

  /** An entry that gets a label is stored, at the moment it is processed, under
      its labelled key or the first free `#n` variant of it. */
  lemma NormalizeLabels(p: Presets)
    requires |p| > 0
    ensures var (k, v) := p[|p| - 1];
      !HasLabel(k) && SizeOf(v).Some? ==>
      var acc := Normalize(p[..|p| - 1]);
      var key := FreshKey(Labelled(SizeOf(v).value.0, SizeOf(v).value.1, k), KeySet(acc));
      key !in KeySet(acc) && Normalize(p) == acc + [(key, v)]
  {
  }

  // -------------------------------------------------------------- default presets

  function Size(w: int, h: int): PresetValue {
    [Some(w), Some(h)]
  }

  /** The keys of `DEFAULT_PRESETS` (config.py:20-54), in order. */
  const DefaultNames: seq<string> := [
    "160×120（カスタム）",
    "320×240（QVGA）",
    "480×320（HVGA）",
    "640×480（VGA）",
    "800×600（SVGA）",
    "1024×768（XGA）",
    "1600×1200（UXGA）",
    "426×240（SD 240p）",
    "640×360（SD 360p）",
    "854×480（SD 480p）",
    "1280×720（HD 720p）",
    "1366×768（WXGA）",
    "1920×1080（FHD 1080p）",
    "2560×1440（2K 1440p）",
    "3840×2160（4K 2160p）",
    "1080×1080（Instagram Feed）",
    "1080×1920（Instagram Story）",
    "1080×1920（TikTok）",
    "1280×720（YouTube Thumbnail）",
    "1500×500（Twitter ヘッダー画像）",
    "400×400（Twitterプロフィール画像)",
    "1200×675（Twitter 通常投稿・横長)",
    "1200×1200（Twitter 通常投稿・正方形)",
    "1200×1500（Twitter 通常投稿・縦長)",
    "1600×900（Twitter リンクカード大）",
    "800×800（Twitter リンクカード小）",
    "1080×1080（Twitter 広告・正方形）",
    "1920×1080（Twitter 広告・横長）",
    "1200×628（Facebook Post）",
    "1080×1920（YouTube Short）",
    "1080×1920（縦FHD 1080p）",
    "32×32（1:1 アイコン）",
    "1080×1080（1:1）"
  ]

  /** Their sizes, in the same order. */
  const DefaultSizes: seq<(int, int)> := [
    (160, 120), (320, 240), (480, 320), (640, 480), (800, 600), (1024, 768), (1600, 1200),
    (426, 240), (640, 360), (854, 480), (1280, 720), (1366, 768), (1920, 1080), (2560, 1440),
    (3840, 2160), (1080, 1080), (1080, 1920), (1080, 1920), (1280, 720), (1500, 500),
    (400, 400), (1200, 675), (1200, 1200), (1200, 1500), (1600, 900), (800, 800), (1080, 1080),
    (1920, 1080), (1200, 628), (1080, 1920), (1080, 1920), (32, 32), (1080, 1080)
  ]

  lemma DefaultsShape()
    ensures |DefaultNames| == |DefaultSizes| == 33
    ensures forall i, j :: 0 <= i < j < |DefaultNames| ==> DefaultNames[i] != DefaultNames[j]
  {
    FirstNamesDistinct();
    LastNamesDistinct();
    NamesDistinctAcross();
  }

  /** The check of distinct names, split in three to keep each part small. */
  lemma FirstNamesDistinct()
    ensures forall i, j :: 0 <= i < j < 17 ==> DefaultNames[i] != DefaultNames[j]
  {
  }

  lemma LastNamesDistinct()
    ensures forall i, j :: 17 <= i < j < 33 ==> DefaultNames[i] != DefaultNames[j]
  {
  }

  lemma NamesDistinctAcross()
    ensures forall i, j :: 0 <= i < 17 <= j < 33 ==> DefaultNames[i] != DefaultNames[j]
  {
  }

  /** `DEFAULT_PRESETS` */
  function DefaultPresets(): (d: Presets)
    ensures |d| == 33 && DistinctKeys(d)
    ensures forall i :: 0 <= i < 33 ==> SizeOf(d[i].1) == Some(DefaultSizes[i])
  {
    DefaultsShape();
    seq(33, i requires 0 <= i < 33 => (DefaultNames[i], Size(DefaultSizes[i].0, DefaultSizes[i].1)))
  }

  /** One iteration of `get_default_presets_with_labels`. */
  function LabelStep(acc: Presets, k: string, v: PresetValue): Presets {
    match SizeOf(v)
    case None => Put(acc, k, v)
    case Some((w, h)) => Put(acc, Labelled(w, h, k), v)
  }

  function WithLabels(d: Presets): (r: Presets)
  {
    if |d| == 0 then []
    else
      var last := d[|d| - 1];
      LabelStep(WithLabels(d[..|d| - 1]), last.0, last.1)
  }

  /** A ratio label is `?:?` or two integers around a colon. */
  lemma LabelForm(w: int, h: int)
    ensures var l := Utils.RatioLabelFromWh(w, h);
      l == "?:?" || exists a, b :: l == IntToString(a) + ":" + IntToString(b)
  {
    if h != 0 {
      var r := w as real / h as real;
      var best := Utils.Nearest(r);
      if best.Some? && Utils.Dist(r, Utils.CandidateValue(best.value)) <= 0.03 {
        var a, b := Utils.Candidates[best.value].0, Utils.Candidates[best.value].1;
        assert Utils.RatioLabelFromWh(w, h) == IntToString(a) + ":" + IntToString(b);
      } else {
        var g := Gcd(Abs(w), Abs(h));
        var a, b := w / g, h / g;
        assert Utils.RatioLabelFromWh(w, h) == IntToString(a) + ":" + IntToString(b);
      }
    }
  }

  lemma IntPairNoSpace(a: int, b: int)
    ensures ' ' !in IntToString(a) + ":" + IntToString(b)
  {
    var sa, sb := IntToString(a), IntToString(b);
    var l := sa + ":" + sb;
    PadIntChars(a, 0);
    PadIntChars(b, 0);
    assert forall i :: 0 <= i < |l| ==> l[i] != ' ' by {
      forall i | 0 <= i < |l| ensures l[i] != ' ' {
        if i < |sa| {
          assert l[i] == sa[i];
        } else if i > |sa| {
          assert l[i] == sb[i - |sa| - 1];
        }
      }
    }
  }

  /** A ratio label holds no space. */
  lemma LabelNoSpace(w: int, h: int)
    ensures ' ' !in Utils.RatioLabelFromWh(w, h)
  {
    LabelForm(w, h);
    var l := Utils.RatioLabelFromWh(w, h);
    if l != "?:?" {
      var a, b :| l == IntToString(a) + ":" + IntToString(b);
      IntPairNoSpace(a, b);
    }
  }

  /** In `l + " " + k` with a space-free l, the first space ends l. */
  lemma FirstSpace(l: string, k: string)
    requires ' ' !in l
    ensures IndexOf(l + " " + k, ' ') == |l|
  {
    var s := l + " " + k;
    assert s[|l|] == ' ';
    assert forall j :: 0 <= j < |l| ==> s[j] == l[j];
  }

  /** Different keys give different labelled keys, whatever their labels. */
  lemma LabelledInjective(w1: int, h1: int, k1: string, w2: int, h2: int, k2: string)
    ensures k1 != k2 ==> Labelled(w1, h1, k1) != Labelled(w2, h2, k2)
  {
    var l1, l2 := Utils.RatioLabelFromWh(w1, h1), Utils.RatioLabelFromWh(w2, h2);
    LabelNoSpace(w1, h1);
    LabelNoSpace(w2, h2);
    var s1, s2 := Labelled(w1, h1, k1), Labelled(w2, h2, k2);
    FirstSpace(l1, k1);
    FirstSpace(l2, k2);
    if s1 == s2 {
      assert |l1| == |l2|;
      assert k1 == s1[|l1| + 1..];
      assert k2 == s2[|l2| + 1..];
    }
  }

  /** A labelled key of an entry is not among the labelled keys of entries with
      other keys. */
  lemma LabelledFresh(acc: Presets, q: Presets, w: int, h: int, k: string)
    requires |acc| == |q|
    requires forall j :: 0 <= j < |q| ==> SizeOf(q[j].1).Some? && q[j].0 != k
    requires forall j :: 0 <= j < |q| ==> acc[j].0 == Labelled(SizeOf(q[j].1).value.0, SizeOf(q[j].1).value.1, q[j].0)
    ensures Labelled(w, h, k) !in KeySet(acc)
  {
    forall j | 0 <= j < |acc| ensures acc[j].0 != Labelled(w, h, k) {
      LabelledInjective(SizeOf(q[j].1).value.0, SizeOf(q[j].1).value.1, q[j].0, w, h, k);
    }
  }

  /** `get_default_presets_with_labels` over a dict of sizes with distinct keys:
      one entry per input entry, in order, with the same value, under the key
      prefixed by its label and a space. */
  lemma {:induction false} WithLabelsSpec(d: Presets)
    requires DistinctKeys(d)
    requires forall i :: 0 <= i < |d| ==> SizeOf(d[i].1).Some?
    ensures |WithLabels(d)| == |d|
    ensures forall i :: 0 <= i < |d| ==> WithLabels(d)[i] == LabelEntry(d[i])
  {
    if |d| > 0 {
      var q := d[..|d| - 1];
      assert forall i :: 0 <= i < |q| ==> q[i] == d[i];
      WithLabelsSpec(q);
      var (k, v) := d[|d| - 1];
      assert forall j :: 0 <= j < |q| ==> q[j].0 != k;
      LabelStepAppends(WithLabels(q), q, k, v);
      SnocMap(LabelEntry, WithLabels(q), d);
    }
  }

  /** An entry with a size under its labelled key. */
  function LabelEntry(e: (string, PresetValue)): (r: (string, PresetValue))
    ensures r.1 == e.1
    ensures SizeOf(e.1).Some? ==> r.0 == Labelled(SizeOf(e.1).value.0, SizeOf(e.1).value.1, e.0)
  {
    match SizeOf(e.1)
    case None => e
    case Some((w, h)) => (Labelled(w, h, e.0), e.1)
  }

  /** Mapping all but the last element, then the last one, maps them all. */
  lemma SnocMap<A, B>(f: A -> B, acc: seq<B>, d: seq<A>)
    requires |d| > 0 && |acc| == |d| - 1
    requires forall i :: 0 <= i < |acc| ==> acc[i] == f(d[i])
    ensures forall i :: 0 <= i < |d| ==> (acc + [f(d[|d| - 1])])[i] == f(d[i])
  {
  }

  /** Labelling one more entry, whose key no earlier entry has, appends it. */
  lemma LabelStepAppends(acc: Presets, q: Presets, k: string, v: PresetValue)
    requires SizeOf(v).Some?
    requires |acc| == |q|
    requires forall j :: 0 <= j < |q| ==> SizeOf(q[j].1).Some? && q[j].0 != k
    requires forall j :: 0 <= j < |q| ==> acc[j].0 == Labelled(SizeOf(q[j].1).value.0, SizeOf(q[j].1).value.1, q[j].0)
    ensures LabelStep(acc, k, v) == acc + [(Labelled(SizeOf(v).value.0, SizeOf(v).value.1, k), v)]
  {
    var (w, h) := SizeOf(v).value;
    LabelledFresh(acc, q, w, h, k);
  }

  /** The 33 defaults come back with labels: 33 entries, same values and order,
      each key the default key behind its ratio label and a space. */
  lemma DefaultsWithLabels()
    ensures |WithLabels(DefaultPresets())| == 33
    ensures forall i :: 0 <= i < 33 ==> (WithLabels(DefaultPresets())[i]
      == (Labelled(DefaultSizes[i].0, DefaultSizes[i].1, DefaultNames[i]), DefaultPresets()[i].1))
  {
    var d := DefaultPresets();
    WithLabelsSpec(d);
  }

  // --------------------------------------------------------- global config merge

  /** Old theme key names and the names that replaced them, in the order the
      migration tries them. */
  const Migrations: seq<(string, string)> := [
    ("crop_color_unfocused", "crop_default_linecolor"),
    ("crop_unfocused_linecolor", "crop_default_linecolor"),
    ("crop_color_focused", "crop_focused_linecolor"),
    ("crop_dash_unfocused", "crop_default_linestyle"),
    ("crop_unfocused_linestyle", "crop_default_linestyle"),
    ("crop_dash_focused", "crop_focused_linestyle")
  ]

  /** The theme keys the migration steps from `i` on may read or write. */
  function Touched(i: nat): set<string> {
    set j | i <= j < |Migrations| :: Migrations[j].0
  } 

  function Written(i: nat): set<string> {
    set j | i <= j < |Migrations| :: Migrations[j].1
  }

  /** Step `i` of the migration: its old key is renamed only when present and its
      new name absent. Every other key keeps its presence and value. */
  function Step<V>(theme: map<string, V>, i: nat): (r: (map<string, V>, bool))
    requires i < |Migrations|
    ensures r.1 <==> Migrations[i].0 in theme && Migrations[i].1 !in theme
    ensures r.1 ==> (Migrations[i].0 !in r.0 && Migrations[i].1 in r.0
                     && r.0[Migrations[i].1] == theme[Migrations[i].0])
    ensures !r.1 ==> r.0 == theme
    ensures forall k :: k != Migrations[i].0 && k != Migrations[i].1 ==>
      (k in r.0 <==> k in theme) && (k in theme ==> r.0[k] == theme[k])
  {
    var (oldKey, newKey) := Migrations[i];
    if oldKey in theme && newKey !in theme then (theme - {oldKey} + map[newKey := theme[oldKey]], true)
    else (theme, false)
  }

  /** The migration loop from step `i` on. Returns the theme and whether anything
      moved. Keys no remaining step mentions keep their presence and value. */
  function MigrateFrom<V>(theme: map<string, V>, i: nat): (r: (map<string, V>, bool))
    ensures forall k :: k !in Touched(i) && k !in Written(i) ==>
      (k in r.0 <==> k in theme) && (k in theme ==> r.0[k] == theme[k])
    ensures !r.1 ==> r.0 == theme
    decreases |Migrations| - i
  {
    if i >= |Migrations| then (theme, false)
    else
      TouchedStep(i);
      var (t, moved) := Step(theme, i);
      var (u, later) := MigrateFrom(t, i + 1);
      (u, moved || later)
  }

  lemma TouchedStep(i: nat)
    requires i < |Migrations|
    ensures Touched(i) == {Migrations[i].0} + Touched(i + 1)
    ensures Written(i) == {Migrations[i].1} + Written(i + 1)
  {
    assert forall k :: k in Touched(i) ==> k in {Migrations[i].0} + Touched(i + 1);
    assert forall k :: k in Written(i) ==> k in {Migrations[i].1} + Written(i + 1);
  }

  /** The whole migration of `load_global_config`. */
  function Migrate<V>(theme: map<string, V>): (r: (map<string, V>, bool))
    ensures forall k :: k !in Touched(0) && k !in Written(0) ==>
      (k in r.0 <==> k in theme) && (k in theme ==> r.0[k] == theme[k])
    ensures !r.1 ==> r.0 == theme
  {
    MigrateFrom(theme, 0)
  }

  /** The loop from `i` is step `i` followed by the loop from `i + 1`. */
  lemma MigrateUnfold<V>(theme: map<string, V>, i: nat)
    requires i < |Migrations|
    ensures MigrateFrom(theme, i).0 == MigrateFrom(Step(theme, i).0, i + 1).0
  {
  }

  /** The table entries the two lemmas below rely on. */
  lemma MigrationTable()
    ensures Migrations[0] == ("crop_color_unfocused", "crop_default_linecolor")
    ensures Migrations[1] == ("crop_unfocused_linecolor", "crop_default_linecolor")
    ensures Migrations[2] == ("crop_color_focused", "crop_focused_linecolor")
    ensures Touched(2) == {"crop_color_focused", "crop_dash_unfocused", "crop_unfocused_linestyle", "crop_dash_focused"}
    ensures Written(2) == {"crop_focused_linecolor", "crop_default_linestyle", "crop_focused_linestyle"}
    ensures Touched(3) == {"crop_dash_unfocused", "crop_unfocused_linestyle", "crop_dash_focused"}
    ensures Written(3) == {"crop_default_linestyle", "crop_focused_linestyle"}
  {
    TouchedStep(2); TouchedStep(3); TouchedStep(4); TouchedStep(5);
    assert Touched(6) == {} && Written(6) == {};
  }

  /** The key names of the table differ where the lemmas below need them to. */
  lemma MigrationNamesDiffer()
    ensures "crop_default_linecolor" !in Touched(2) + Written(2)
    ensures "crop_unfocused_linecolor" !in Touched(2) + Written(2)
    ensures "crop_color_unfocused" !in Touched(2) + Written(2)
    ensures "crop_color_unfocused" != "crop_default_linecolor"
    ensures "crop_unfocused_linecolor" != "crop_default_linecolor"
    ensures "crop_unfocused_linecolor" != "crop_color_unfocused"
    ensures "crop_focused_linecolor" !in Touched(3) + Written(3)
    ensures "crop_color_focused" !in Touched(3) + Written(3)
    ensures "crop_color_focused" != "crop_focused_linecolor"
  {
    MigrationTable();
  }

  /** Both `crop_color_unfocused` and `crop_unfocused_linecolor` become
      `crop_default_linecolor`; when both are present and the new name is not,
      the first one wins and the second is left as it is. */
  lemma MigrationFirstWins<V>(theme: map<string, V>)
    requires "crop_color_unfocused" in theme && "crop_unfocused_linecolor" in theme
    requires "crop_default_linecolor" !in theme
    ensures var t := Migrate(theme).0;
      "crop_default_linecolor" in t && t["crop_default_linecolor"] == theme["crop_color_unfocused"]
      && "crop_unfocused_linecolor" in t && t["crop_unfocused_linecolor"] == theme["crop_unfocused_linecolor"]
      && "crop_color_unfocused" !in t
  {
    MigrationTable();
    MigrationNamesDiffer();
    var a := Step(theme, 0).0;
    MigrateUnfold(theme, 0);
    MigrateUnfold(a, 1);
  }

  /** An old key whose new name is already there is left alone, and the value
      under the new name is not overwritten. */
  lemma MigrationKeepsExisting<V>(theme: map<string, V>)
    requires "crop_color_focused" in theme && "crop_focused_linecolor" in theme
    ensures var t := Migrate(theme).0;
      "crop_focused_linecolor" in t && t["crop_focused_linecolor"] == theme["crop_focused_linecolor"]
      && "crop_color_focused" in t && t["crop_color_focused"] == theme["crop_color_focused"]
  {
    MigrationTable();
    MigrationNamesDiffer();
    var a := Step(theme, 0).0;
    var b := Step(a, 1).0;
    MigrateUnfold(theme, 0);
    MigrateUnfold(a, 1);
    MigrateUnfold(b, 2);
  }

  /** The fill loop: every key of `defaults` that `m` lacks is added with its
      default value. Returns the map and whether anything was added. */
  function Fill<V>(m: map<string, V>, defaults: map<string, V>): (r: (map<string, V>, bool))
    ensures r.0.Keys == m.Keys + defaults.Keys
    ensures forall k :: k in m ==> r.0[k] == m[k]
    ensures forall k :: k in defaults && k !in m ==> r.0[k] == defaults[k]
    ensures r.1 <==> !(defaults.Keys <= m.Keys)
  {
    var added := map k | k in defaults && k !in m :: defaults[k];
    (m + added, exists k :: k in defaults && k !in m)
  }

  /** What the configuration file held: nothing, an empty file, a file that does
      not parse, or a parsed object split into its `theme` object (absent when the
      key is missing) and its other top-level keys. */
  datatype ConfigFile<V> = Missing | EmptyFile | Corrupt | Parsed(top: map<string, V>, theme: Option<map<string, V>>)

  datatype GlobalConfig<V> = GlobalConfig(top: map<string, V>, theme: map<string, V>)

  /** `load_global_config` without the file access: migrate the theme, fill it and
      the top level from the defaults, and report whether the file must be
      written back. */
  function LoadGlobal<V>(file: ConfigFile<V>, themeDefaults: map<string, V>, topDefaults: map<string, V>)
    : (r: (GlobalConfig<V>, bool))
    ensures themeDefaults.Keys <= r.0.theme.Keys && topDefaults.Keys <= r.0.top.Keys
    ensures file.Parsed? ==> forall k :: k in file.top ==> k in r.0.top && r.0.top[k] == file.top[k]
    ensures file.EmptyFile? || file.Corrupt? ==> r.1
  {
    var loaded := if file.Parsed? then file.top else map[];
    var theme := if file.Parsed? && file.theme.Some? then file.theme.value else map[];
    var (t1, migrated) := Migrate(theme);
    var (t2, themeFilled) := Fill(t1, themeDefaults);
    var (top, topFilled) := Fill(loaded, topDefaults);
    (GlobalConfig(top, t2), file.EmptyFile? || file.Corrupt? || migrated || themeFilled || topFilled)
  }

  /** The file is rewritten exactly when it was empty or corrupt, or a theme key
      was migrated, or a default had to be filled in. */
  lemma RewriteIff<V>(file: ConfigFile<V>, themeDefaults: map<string, V>, topDefaults: map<string, V>)
    ensures var theme := if file.Parsed? && file.theme.Some? then file.theme.value else map[];
      var top := if file.Parsed? then file.top else map[];
      var t1 := Migrate(theme);
      (LoadGlobal(file, themeDefaults, topDefaults).1 <==>
        (file.EmptyFile? || file.Corrupt? || t1.1
         || !(themeDefaults.Keys <= t1.0.Keys) || !(topDefaults.Keys <= top.Keys)))
  {
  }

  /** A file that already has every default and no old theme key is left alone:
      nothing is rewritten and the loaded values are returned as they are. */
  lemma CompleteFileUntouched<V>(top: map<string, V>, theme: map<string, V>,
                                 themeDefaults: map<string, V>, topDefaults: map<string, V>)
    requires forall k :: k in Touched(0) ==> k !in theme
    requires themeDefaults.Keys <= theme.Keys && topDefaults.Keys <= top.Keys
    ensures LoadGlobal(Parsed(top, Some(theme)), themeDefaults, topDefaults) == (GlobalConfig(top, theme), false)
  {
    MigrateNone(theme, 0);
    FillComplete(theme, themeDefaults);
    FillComplete(top, topDefaults);
  }

  lemma FillComplete<V>(m: map<string, V>, defaults: map<string, V>)
    requires defaults.Keys <= m.Keys
    ensures Fill(m, defaults) == (m, false)
  {
    assert Fill(m, defaults).0 == m;
  }

  lemma {:induction false} MigrateNone<V>(theme: map<string, V>, i: nat)
    requires forall k :: k in Touched(i) ==> k !in theme
    ensures MigrateFrom(theme, i) == (theme, false)
    decreases |Migrations| - i
  {
    if i < |Migrations| {
      TouchedStep(i);
      MigrateNone(theme, i + 1);
    }
  }

  // ------------------------------------------------------------ per-video file

  /** `os.path.splitext(path)[0] + '.settings.json'`, None for an empty path. */
  function SettingsPath(videoPath: string): (r: Option<string>)
    ensures r.None? <==> |videoPath| == 0
    ensures r.Some? ==> IsPrefix(SplitExtRoot(videoPath), r.value)
  {
    if |videoPath| == 0 then None
    else
      var root := SplitExtRoot(videoPath);
      assert (root + ".settings.json")[..|root|] == root;
      Some(root + ".settings.json")
  }

  /** A video `name.ext` gets the settings file `name.settings.json` next to it. */
  lemma SettingsPathReplacesExtension(root: string, ext: string)
    requires |root| > 0 && root[|root| - 1] != '.' && !IsPathSep(root[|root| - 1])
    requires |ext| > 0 && ext[0] == '.'
    requires forall i :: 1 <= i < |ext| ==> ext[i] != '.' && !IsPathSep(ext[i])
    ensures SettingsPath(root + ext) == Some(root + ".settings.json")
  {
    SplitExtAppend(root, ext);
  }
}
