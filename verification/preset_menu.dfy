/** The resolution presets as the editor window uses them (src/ChulipVideo.py):
    adding the current width and height under a labelled, collision-free name,
    and building the preset menu, filtered by the chosen aspect ratio and sorted
    by (ratio, width, height) with Python's stable sort. */
module PresetMenu {
  import opened Text
  import opened Numbers
  import opened Optional
  import Utils
  import Config

  // ------------------------------------------------------------- add preset

  /** `add_resolution_preset`: the W and H boxes are read with `int()` and the
      name comes from a dialog (None when cancelled). Nothing changes on an
      unreadable box or an empty or cancelled name; otherwise the pair is stored
      under `"<label> <name>"`, suffixed `#n` when that key is taken. */
  function AddPreset(presets: Config.Presets, ew: string, eh: string, name: Option<string>)
    : (r: Config.Presets)
    ensures ParseInt(ew).None? || ParseInt(eh).None? || name.None? || name == Some("") ==> r == presets
    ensures r != presets ==> |r| == |presets| + 1 && r[..|presets|] == presets
    ensures r != presets ==>
      r[|presets|].0 !in Config.KeySet(presets)
      && r[|presets|].1 == [ParseInt(ew), ParseInt(eh)]
  {
    match (ParseInt(ew), ParseInt(eh), name)
    case (Some(w), Some(h), Some(n)) =>
      if n == "" then presets
      else
        var key := Config.FreshKey(Utils.RatioLabelFromWh(w, h) + " " + n, Config.KeySet(presets));
        var r := Config.Put(presets, key, [Some(w), Some(h)]);
        assert r[..|presets|] == presets;
        r
    case _ => presets
  }

  /** Adding a preset never overwrites one: every existing key keeps its value, the
      keys stay distinct, and the new key starts with the label and the name. */
  lemma AddPresetNeverOverwrites(presets: Config.Presets, ew: string, eh: string, name: Option<string>)
    requires Config.DistinctKeys(presets)
    ensures var r := AddPreset(presets, ew, eh, name);
      Config.DistinctKeys(r)
      && (forall k :: k in Config.KeySet(presets) ==> Config.Lookup(r, k) == Config.Lookup(presets, k))
  {
    match (ParseInt(ew), ParseInt(eh), name)
    case (Some(w), Some(h), Some(n)) =>
      if n != "" {
        var key := Config.FreshKey(Utils.RatioLabelFromWh(w, h) + " " + n, Config.KeySet(presets));
        assert key !in Config.KeySet(presets);
      }
    case _ =>
  }

  /** The new key is `"<label> <name>"` when that is free, and otherwise that key
      followed by `#n` for the smallest free n >= 1. */
  lemma AddPresetKey(presets: Config.Presets, ew: string, eh: string, w: int, h: int, n: string)
    requires ParseInt(ew) == Some(w) && ParseInt(eh) == Some(h) && n != ""
    ensures var full := Utils.RatioLabelFromWh(w, h) + " " + n;
      var r := AddPreset(presets, ew, eh, Some(n));
      var key := r[|presets|].0;
      |r| == |presets| + 1
      && (full !in Config.KeySet(presets) ==> key == full)
      && (full in Config.KeySet(presets) ==>
            exists m: nat :: m >= 1 && key == Config.Suffixed(full, m)
              && forall j :: 1 <= j < m ==> Config.Suffixed(full, j) in Config.KeySet(presets))
  {
    AddPresetStores(presets, ew, eh, w, h, n);
  }

  lemma AddPresetStores(presets: Config.Presets, ew: string, eh: string, w: int, h: int, n: string)
    requires ParseInt(ew) == Some(w) && ParseInt(eh) == Some(h) && n != ""
    ensures var key := Config.FreshKey(Utils.RatioLabelFromWh(w, h) + " " + n, Config.KeySet(presets));
      AddPreset(presets, ew, eh, Some(n)) == presets + [(key, [Some(w), Some(h)])]
  {
  }

  // ------------------------------------------------------------ menu entries

  /** One menu candidate: the ratio value, the size and the preset name. */
  datatype Item = Item(rval: real, w: int, h: int, name: string)

  /** The length of the leading run of non-whitespace characters. */
  function WordEnd(s: string): (n: nat)
    ensures n <= |s|
    ensures forall i :: 0 <= i < n ==> !IsSpace(s[i])
    ensures n < |s| ==> IsSpace(s[n])
  {
    if |s| == 0 || IsSpace(s[0]) then 0 else 1 + WordEnd(s[1..])
  }

  /** `name.split()[0]`, None for the IndexError of a blank name. */
  function FirstWord(name: string): (r: Option<string>)
    ensures r.Some? ==> |r.value| > 0 && forall i :: 0 <= i < |r.value| ==> !IsSpace(r.value[i])
    ensures r.None? <==> forall i :: 0 <= i < |name| ==> IsSpace(name[i])
  {
    var t := StripLeft(name);
    if |t| == 0 then None
    else
      StripLeftSuffix(name);
      assert name[|name| - |t|] == t[0];
      Some(t[..WordEnd(t)])
  }

  /** The ratio of a preset: the ratio its first word spells, else w/h, else 0. */
  function RatioOf(name: string, w: int, h: int): real {
    match FirstWord(name)
    case Some(first) =>
      (match Utils.RatioValueFromStr(first)
       case Some(v) => v
       case None => if h != 0 then w as real / h as real else 0.0)
    case None => if h != 0 then w as real / h as real else 0.0
  }

  /** The target ratio of the ratio box: none for an empty choice or 未指定, or a
      choice that is not a ratio. */
  function Target(choice: string): Option<real> {
    if choice == "" || choice == "未指定" then None else Utils.RatioValueFromStr(choice)
  }

  /** `abs(rval - target) <= 0.03`, or no target. */
  predicate Within(target: Option<real>, rval: real) {
    target.None? || (-0.03 <= rval - target.value <= 0.03)
  }

  /** The candidate a preset entry gives, if any: none for an unreadable size or
      a ratio outside the tolerance. */
  function ItemOf(e: (string, Config.PresetValue), target: Option<real>): (r: Option<Item>)
    ensures r.Some? ==> r.value.name == e.0 && Within(target, r.value.rval)
    ensures r.Some? <==> (Config.SizeOf(e.1).Some?
                          && Within(target, RatioOf(e.0, Config.SizeOf(e.1).value.0, Config.SizeOf(e.1).value.1)))
  {
    match Config.SizeOf(e.1)
    case None => None
    case Some((w, h)) =>
      var rv := RatioOf(e.0, w, h);
      if Within(target, rv) then Some(Item(rv, w, h, e.0)) else None
  }

  /** The loop over the presets: candidates in dict order. */
  function Candidates(p: Config.Presets, target: Option<real>): (r: seq<Item>)
    ensures forall k :: 0 <= k < |r| ==> Within(target, r[k].rval)
    ensures |r| <= |p|
  {
    if |p| == 0 then []
    else
      match ItemOf(p[0], target)
      case Some(it) => [it] + Candidates(p[1..], target)
      case None => Candidates(p[1..], target)
  }

  /** Exactly the entries that give a candidate are listed. */
  lemma {:induction false} CandidatesMembers(p: Config.Presets, target: Option<real>, it: Item)
    ensures it in Candidates(p, target) <==> exists i :: 0 <= i < |p| && ItemOf(p[i], target) == Some(it)
  {
    if |p| > 0 {
      CandidatesMembers(p[1..], target, it);
      if it in Candidates(p, target) {
        if ItemOf(p[0], target) == Some(it) {
        } else {
          assert it in Candidates(p[1..], target);
          var i :| 0 <= i < |p[1..]| && ItemOf(p[1..][i], target) == Some(it);
          assert ItemOf(p[i + 1], target) == Some(it);
        }
      }
      if exists i :: 0 <= i < |p| && ItemOf(p[i], target) == Some(it) {
        var i :| 0 <= i < |p| && ItemOf(p[i], target) == Some(it);
        if i > 0 {
          assert ItemOf(p[1..][i - 1], target) == Some(it);
        }
      }
    }
  }

  // ------------------------------------------------------------ stable sort

  /** The sort key (ratio, width, height), compared as a Python tuple. */
  predicate Before(a: Item, b: Item) {
    a.rval < b.rval || (a.rval == b.rval && (a.w < b.w || (a.w == b.w && a.h < b.h)))
  }

  predicate SameKey(a: Item, b: Item) {
    a.rval == b.rval && a.w == b.w && a.h == b.h
  }

  predicate Sorted(s: seq<Item>) {
    forall i, j :: 0 <= i < j < |s| ==> !Before(s[j], s[i])
  }

  /** x placed after every element whose key is not larger. */
  function Insert(x: Item, s: seq<Item>): (r: seq<Item>)
    ensures multiset(r) == multiset(s) + multiset{x}
  {
    if |s| == 0 then [x]
    else if Before(x, s[0]) then [x] + s
    else
      assert s == [s[0]] + s[1..];
      [s[0]] + Insert(x, s[1..])
  }

  /** The key order is transitive across a "not before". */
  lemma BeforeChain(x: Item, a: Item, b: Item)
    requires Before(x, a) && !Before(b, a)
    ensures Before(x, b)
  {
  }

  lemma {:induction false} InsertSorted(x: Item, s: seq<Item>)
    requires Sorted(s)
    ensures Sorted(Insert(x, s))
  {
    if |s| > 0 && !Before(x, s[0]) {
      InsertSorted(x, s[1..]);
      var t := Insert(x, s[1..]);
      forall j | 0 <= j < |t|
        ensures !Before(t[j], s[0])
      {
        assert t[j] in multiset(t);
        assert t[j] in multiset(s[1..]) + multiset{x};
        if t[j] != x {
          var m :| 0 <= m < |s[1..]| && s[1..][m] == t[j];
          assert s[m + 1] == t[j];
        }
      }
    } else if |s| > 0 {
      forall j | 0 <= j < |s|
        ensures Before(x, s[j])
      {
        BeforeChain(x, s[0], s[j]);
      }
    }
  }

  /** `items.sort(key=lambda t: (t[0], t[1], t[2]))`, element by element in input
      order, each inserted after its equals. */
  function SortItems(s: seq<Item>): (r: seq<Item>)
    ensures multiset(r) == multiset(s)
  {
    if |s| == 0 then []
    else
      assert s == s[..|s| - 1] + [s[|s| - 1]];
      Insert(s[|s| - 1], SortItems(s[..|s| - 1]))
  }

  lemma {:induction false} SortSorted(s: seq<Item>)
    ensures Sorted(SortItems(s))
  {
    if |s| > 0 {
      SortSorted(s[..|s| - 1]);
      InsertSorted(s[|s| - 1], SortItems(s[..|s| - 1]));
    }
  }

  /** The items of s with the key of k, in order. */
  function WithKey(s: seq<Item>, k: Item): (r: seq<Item>)
    ensures forall i :: 0 <= i < |r| ==> SameKey(r[i], k)
  {
    if |s| == 0 then []
    else if SameKey(s[0], k) then [s[0]] + WithKey(s[1..], k)
    else WithKey(s[1..], k)
  }

  lemma {:induction false} WithKeyAppend(s: seq<Item>, t: seq<Item>, k: Item)
    ensures WithKey(s + t, k) == WithKey(s, k) + WithKey(t, k)
  {
    if |s| == 0 {
      assert s + t == t;
    } else {
      assert (s + t)[1..] == s[1..] + t;
      WithKeyAppend(s[1..], t, k);
    }
  }

  lemma {:induction false} WithKeyNone(s: seq<Item>, k: Item)
    requires forall j :: 0 <= j < |s| ==> !SameKey(s[j], k)
    ensures WithKey(s, k) == []
  {
    if |s| > 0 {
      WithKeyNone(s[1..], k);
    }
  }

  lemma WithKeySingle(x: Item, k: Item)
    ensures WithKey([x], k) == if SameKey(x, k) then [x] else []
  {
    assert [x][1..] == [];
  }

  /** Inserting x into a sorted list puts it after the items of its own key. */
  lemma {:induction false} InsertWithKey(x: Item, s: seq<Item>, k: Item)
    requires Sorted(s)
    ensures WithKey(Insert(x, s), k) == WithKey(s, k) + (if SameKey(x, k) then [x] else [])
  {
    if |s| == 0 {
    } else if Before(x, s[0]) {
      assert Insert(x, s) == [x] + s;
      if SameKey(x, k) {
        assert forall j :: 0 <= j < |s| ==> !SameKey(s[j], k) by {
          assert forall j :: 0 <= j < |s| ==> !Before(s[j], s[0]);
        }
        WithKeyNone(s, k);
        assert ([x] + s)[1..] == s;
      } else {
        assert ([x] + s)[1..] == s;
      }
    } else {
      assert Sorted(s[1..]);
      InsertWithKey(x, s[1..], k);
      var t := Insert(x, s[1..]);
      assert Insert(x, s) == [s[0]] + t;
      assert ([s[0]] + t)[1..] == t;
    }
  }

  /** The sort is stable: the items of each key keep their input order. */
  lemma {:induction false} SortStable(s: seq<Item>, k: Item)
    ensures WithKey(SortItems(s), k) == WithKey(s, k)
  {
    if |s| > 0 {
      var n := |s| - 1;
      var a, x := s[..n], s[n];
      assert s == a + [x];
      assert SortItems(s) == Insert(x, SortItems(a));
      SortStable(a, k);
      SortSorted(a);
      InsertWithKey(x, SortItems(a), k);
      WithKeyAppend(a, [x], k);
      WithKeySingle(x, k);
    }
  }

  // ------------------------------------------------------------------- menu

  /** The names `update_resolution_menu` lists after カスタム and 全画面. */
  function MenuItems(p: Config.Presets, choice: string): (r: seq<Item>)
    ensures Sorted(r)
    ensures forall k :: 0 <= k < |r| ==> Within(Target(choice), r[k].rval)
    ensures multiset(r) == multiset(Candidates(p, Target(choice)))
  {
    var c := Candidates(p, Target(choice));
    var r := SortItems(c);
    SortSorted(c);
    assert forall k :: 0 <= k < |r| ==> r[k] in multiset(c);
    r
  }

  function Names(items: seq<Item>): (r: seq<string>)
    ensures |r| == |items| && forall i :: 0 <= i < |r| ==> r[i] == items[i].name
  {
    if |items| == 0 then [] else [items[0].name] + Names(items[1..])
  }

  /** The whole menu: the two fixed entries, then the sorted preset names. */
  function Menu(p: Config.Presets, choice: string): (r: seq<string>)
    ensures |r| >= 2 && r[0] == "カスタム" && r[1] == "全画面"
    ensures r[2..] == Names(MenuItems(p, choice))
  {
    ["カスタム", "全画面"] + Names(MenuItems(p, choice))
  }

  /** A preset shows in the menu exactly when its size reads and its ratio is
      within 0.03 of the chosen one (any ratio when none is chosen). */
  lemma MenuMembership(p: Config.Presets, choice: string, it: Item)
    ensures it in MenuItems(p, choice) <==>
      exists i :: 0 <= i < |p| && ItemOf(p[i], Target(choice)) == Some(it)
  {
    var c := Candidates(p, Target(choice));
    assert it in MenuItems(p, choice) <==> it in multiset(c);
    CandidatesMembers(p, Target(choice), it);
  }

  /** Each entry after the two fixed ones names a preset that passes the ratio
      filter, and every such preset has its name in the menu. */
  lemma MenuNamesPresets(p: Config.Presets, choice: string, name: string)
    ensures name in Menu(p, choice)[2..] <==>
      exists i :: 0 <= i < |p| && ItemOf(p[i], Target(choice)).Some? && ItemOf(p[i], Target(choice)).value.name == name
  {
    var items := MenuItems(p, choice);
    var m := Menu(p, choice);
    if name in m[2..] {
      var k :| 0 <= k < |m[2..]| && m[2..][k] == name;
      MenuMembership(p, choice, items[k]);
    }
    if exists i :: 0 <= i < |p| && ItemOf(p[i], Target(choice)).Some? && ItemOf(p[i], Target(choice)).value.name == name {
      var i :| 0 <= i < |p| && ItemOf(p[i], Target(choice)).Some? && ItemOf(p[i], Target(choice)).value.name == name;
      var it := ItemOf(p[i], Target(choice)).value;
      MenuMembership(p, choice, it);
      var k :| 0 <= k < |items| && items[k] == it;
      assert m[2..][k] == name;
    }
  }

  /** With no ratio chosen every preset whose size reads is listed. */
  lemma NoFilterListsAll(p: Config.Presets, i: nat)
    requires i < |p| && Config.SizeOf(p[i].1).Some?
    ensures exists it :: it in MenuItems(p, "未指定") && it.name == p[i].0
  {
    var it := ItemOf(p[i], None).value;
    MenuMembership(p, "未指定", it);
  }
}
