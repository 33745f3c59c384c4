/** The shortcut whitelist (src/shortcut_manager.py): the fixed catalogue of key
    combinations, the record and playback flags kept for each, the TSV file that
    stores them (current and legacy layouts), the lookups made while recording
    and playing back, and the descriptions merged from application definition
    files. A file is given as the rows the csv reader yields, or None when it
    does not exist; opening, writing and csv quoting are left out. */
module Shortcuts {
  import opened Text
  import opened Optional

  // ---------------------------------------------------------------- catalogue

  const Modifiers: seq<string> := ["Ctrl", "Shift", "Alt", "Win"]

  /** The subsets of the modifiers in the order `itertools.combinations` lists
      them: by size, each subset in Ctrl, Shift, Alt, Win order. */
  const ModCombos: seq<seq<string>> := [
    [],
    ["Ctrl"], ["Shift"], ["Alt"], ["Win"],
    ["Ctrl", "Shift"], ["Ctrl", "Alt"], ["Ctrl", "Win"],
    ["Shift", "Alt"], ["Shift", "Win"], ["Alt", "Win"],
    ["Ctrl", "Shift", "Alt"], ["Ctrl", "Shift", "Win"],
    ["Ctrl", "Alt", "Win"], ["Shift", "Alt", "Win"],
    ["Ctrl", "Shift", "Alt", "Win"]
  ]

  const FunctionKeys: seq<string> :=
    ["F1", "F2", "F3", "F4", "F5", "F6", "F7", "F8", "F9", "F10", "F11", "F12"]

  const SpecialKeys: seq<string> := [
    "Enter", "Space", "Esc", "BS", "Tab", "Del",
    "PageUp", "PageDown", "End", "Home", "Insert",
    "Left", "Up", "Right", "Down",
    "PrintScreen", "Pause", "CapsLock", "ScrollLock"
  ]

  const MouseActions: seq<string> := ["L-Click", "R-Click", "M-Click"]

  /** A-Z, 0-9, F1-F12 and the 19 special keys. */
  const BaseCount: nat := 67

  /** 67 base keys and 3 mouse actions under each of the 16 modifier subsets,
      then the 4 modifiers alone. */
  const CatalogueSize: nat := 1124

  function BaseKey(b: nat): string
    requires b < BaseCount
  {
    if b < 26 then [(0x41 + b) as char]
    else if b < 36 then [(0x30 + b - 26) as char]
    else if b < 48 then FunctionKeys[b - 36]
    else SpecialKeys[b - 48]
  }

  /** `"+".join(mods + [key])` */
  function Combo(mods: seq<string>, key: string): string {
    Join("+", mods + [key])
  }

  /** A single letter or digit: disabled by default when typed without a modifier. */
  predicate IsCharacterKey(key: string) {
    |key| == 1 && (('A' <= key[0] <= 'Z') || ('0' <= key[0] <= '9'))
  }

  datatype Shortcut = Shortcut(key: string, enabled: bool)

  /** The `i`-th entry `generate_all_shortcuts` appends: keyboard keys (each base
      key under the 16 subsets), then mouse actions, then bare modifiers. */
  function CatalogueEntry(i: nat): Shortcut
    requires i < CatalogueSize
  {
    if i < 1072 then
      var key, mods := BaseKey(i / 16), ModCombos[i % 16];
      Shortcut(Combo(mods, key), !(mods == [] && IsCharacterKey(key)))
    else if i < 1120 then
      Shortcut(Combo(ModCombos[(i - 1072) % 16], MouseActions[(i - 1072) / 16]), true)
    else Shortcut(Modifiers[i - 1120], false)
  }

  /** `generate_all_shortcuts()` */
  function Catalogue(): (cat: seq<Shortcut>)
    ensures |cat| == CatalogueSize
  {
    seq(CatalogueSize, i requires 0 <= i < CatalogueSize => CatalogueEntry(i))
  }

  function CatalogueKeys(): (ks: seq<string>)
    ensures |ks| == CatalogueSize
  {
    KeysOf(Catalogue())
  }

  function KeysOf(es: seq<Shortcut>): (ks: seq<string>)
    ensures |ks| == |es| && forall i :: 0 <= i < |es| ==> ks[i] == es[i].key
  {
    seq(|es|, i requires 0 <= i < |es| => es[i].key)
  }

  // ---------------------------------------------------------------- the catalogue's keys are distinct

  /** The names a catalogue key is joined from: its modifiers, then the key. */
  function Parts(i: nat): seq<string>
    requires i < CatalogueSize
  {
    if i < 1072 then ModCombos[i % 16] + [BaseKey(i / 16)]
    else if i < 1120 then ModCombos[(i - 1072) % 16] + [MouseActions[(i - 1072) / 16]]
    else [Modifiers[i - 1120]]
  }

  // Facts about the literal name lists, each settled by evaluation.

  lemma ModCombosDistinct()
    ensures forall i, j :: 0 <= i < j < |ModCombos| ==> ModCombos[i] != ModCombos[j]
  {
  }

  lemma FunctionKeysDistinct()
    ensures forall i, j :: 0 <= i < j < |FunctionKeys| ==> FunctionKeys[i] != FunctionKeys[j]
  {
  }

  lemma SpecialKeysDistinct()
    ensures forall i, j :: 0 <= i < j < |SpecialKeys| ==> SpecialKeys[i] != SpecialKeys[j]
  {
  }

  lemma MouseActionsDistinct()
    ensures forall i, j :: 0 <= i < j < |MouseActions| ==> MouseActions[i] != MouseActions[j]
  {
  }

  lemma ModifiersDistinct()
    ensures forall i, j :: 0 <= i < j < |Modifiers| ==> Modifiers[i] != Modifiers[j]
  {
  }

  lemma FunctionKeysShape()
    ensures forall k :: 0 <= k < |FunctionKeys| ==>
      (|FunctionKeys[k]| >= 2 && '+' !in FunctionKeys[k] && FunctionKeys[k] != "None")
  {
  }

  lemma SpecialKeysShape()
    ensures forall k :: 0 <= k < |SpecialKeys| ==>
      (|SpecialKeys[k]| >= 2 && '+' !in SpecialKeys[k] && SpecialKeys[k] !in FunctionKeys
       && SpecialKeys[k] != "None")
  {
  }

  lemma MouseActionsShape()
    ensures forall m :: 0 <= m < |MouseActions| ==>
      (|MouseActions[m]| == 7 && '+' !in MouseActions[m]
       && MouseActions[m] !in FunctionKeys && MouseActions[m] !in SpecialKeys)
  {
  }

  lemma ModifiersShape()
    ensures forall k :: 0 <= k < |Modifiers| ==>
      (|Modifiers[k]| >= 3 && '+' !in Modifiers[k] && Modifiers[k] !in FunctionKeys
       && Modifiers[k] !in SpecialKeys && Modifiers[k] !in MouseActions && Modifiers[k] != "None")
  {
  }

  lemma ModCombosShape()
    ensures forall c, k :: 0 <= c < |ModCombos| && 0 <= k < |ModCombos[c]| ==> ModCombos[c][k] in Modifiers
    ensures ModCombos[0] == []
    ensures forall c :: 0 < c < |ModCombos| ==> |ModCombos[c]| > 0
  {
  }

  /** A modifier's place in the order Ctrl, Shift, Alt, Win. */
  function ModifierRank(m: string): nat {
    if m == "Ctrl" then 0 else if m == "Shift" then 1 else if m == "Alt" then 2 else 3
  }

  /** Every subset lists its modifiers in the order Ctrl, Shift, Alt, Win, each
      at most once. */
  lemma ModCombosOrdered()
    ensures forall c, a, b :: 0 <= c < |ModCombos| && 0 <= a < b < |ModCombos[c]| ==>
      ModifierRank(ModCombos[c][a]) < ModifierRank(ModCombos[c][b])
  {
  }

  lemma ModNamesNoPlus(c: nat)
    requires c < |ModCombos|
    ensures forall k :: 0 <= k < |ModCombos[c]| ==> '+' !in ModCombos[c][k]
  {
    ModCombosShape();
    ModifiersShape();
  }

  lemma BaseKeyShape(b: nat)
    requires b < BaseCount
    ensures '+' !in BaseKey(b) && BaseKey(b) != "None" && BaseKey(b) != ""
    ensures IsCharacterKey(BaseKey(b)) <==> b < 36
    ensures BaseKey(b) !in Modifiers && BaseKey(b) !in MouseActions
  {
    ModifiersShape();
    MouseActionsShape();
    if b < 36 {
      assert |BaseKey(b)| == 1;
    } else if b < 48 {
      FunctionKeysShape();
    } else {
      SpecialKeysShape();
    }
  }

  /** Different base keys are spelled differently. */
  lemma BaseKeyInjective(b1: nat, b2: nat)
    requires b1 < BaseCount && b2 < BaseCount && BaseKey(b1) == BaseKey(b2)
    ensures b1 == b2
  {
    var k1, k2 := BaseKey(b1), BaseKey(b2);
    BaseKeyShape(b1);
    BaseKeyShape(b2);
    if b1 < 36 && b2 < 36 {
      assert k1[0] == k2[0];
    } else if 36 <= b1 < 48 && 36 <= b2 < 48 {
      FunctionKeysDistinct();
    } else if 48 <= b1 && 48 <= b2 {
      SpecialKeysDistinct();
    } else if b1 >= 36 && b2 >= 36 {
      SpecialKeysShape();
    } else {
      FunctionKeysShape();
      SpecialKeysShape();
    }
  }

  lemma AppendLast(a: seq<string>, x: string, b: seq<string>, y: string)
    requires a + [x] == b + [y]
    ensures a == b && x == y
  {
    assert a == (a + [x])[..|a|];
    assert b == (b + [y])[..|b|];
  }

  lemma SplitCombo(mods: seq<string>, key: string)
    requires forall k :: 0 <= k < |mods| ==> '+' !in mods[k]
    requires '+' !in key
    ensures Split(Combo(mods, key), '+') == mods + [key]
  {
    var parts := mods + [key];
    assert forall k :: 0 <= k < |parts| ==> '+' !in parts[k] by {
      forall k | 0 <= k < |parts| ensures '+' !in parts[k] {
        if k < |mods| { assert parts[k] == mods[k]; }
      }
    }
    SplitJoin(parts, '+');
  }

  lemma KeyboardSplit(i: nat)
    requires i < 1072
    ensures Split(CatalogueEntry(i).key, '+') == Parts(i)
  {
    BaseKeyShape(i / 16);
    ModNamesNoPlus(i % 16);
    SplitCombo(ModCombos[i % 16], BaseKey(i / 16));
  }

  lemma MouseSplit(i: nat)
    requires 1072 <= i < 1120
    ensures Split(CatalogueEntry(i).key, '+') == Parts(i)
  {
    MouseActionsShape();
    ModNamesNoPlus((i - 1072) % 16);
    SplitCombo(ModCombos[(i - 1072) % 16], MouseActions[(i - 1072) / 16]);
  }

  lemma ModifierSplit(i: nat)
    requires 1120 <= i < CatalogueSize
    ensures Split(CatalogueEntry(i).key, '+') == Parts(i)
  {
    ModifiersShape();
    SplitNoSep(Modifiers[i - 1120], '+');
  }

  /** Splitting a catalogue key at `+` gives back the names it was joined from. */
  lemma SplitEntry(i: nat)
    requires i < CatalogueSize
    ensures Split(CatalogueEntry(i).key, '+') == Parts(i)
  {
    if i < 1072 {
      KeyboardSplit(i);
    } else if i < 1120 {
      MouseSplit(i);
    } else {
      ModifierSplit(i);
    }
  }

  lemma KeyboardPartsInjective(i: nat, j: nat)
    requires i < 1072 && j < 1072 && Parts(i) == Parts(j)
    ensures i == j
  {
    AppendLast(ModCombos[i % 16], BaseKey(i / 16), ModCombos[j % 16], BaseKey(j / 16));
    ModCombosDistinct();
    BaseKeyInjective(i / 16, j / 16);
  }

  lemma MousePartsInjective(i: nat, j: nat)
    requires 1072 <= i < 1120 && 1072 <= j < 1120 && Parts(i) == Parts(j)
    ensures i == j
  {
    var mi, ci, mj, cj := (i - 1072) / 16, (i - 1072) % 16, (j - 1072) / 16, (j - 1072) % 16;
    AppendLast(ModCombos[ci], MouseActions[mi], ModCombos[cj], MouseActions[mj]);
    ModCombosDistinct();
    MouseActionsDistinct();
    assert mi == mj && ci == cj;
  }

  lemma ModifierPartsInjective(i: nat, j: nat)
    requires 1120 <= i < CatalogueSize && 1120 <= j < CatalogueSize && Parts(i) == Parts(j)
    ensures i == j
  {
    assert Parts(i)[0] == Parts(j)[0];
    ModifiersDistinct();
  }

  /** The last name tells the three groups apart. */
  lemma PartsGroup(i: nat)
    requires i < CatalogueSize
    ensures var p := Parts(i);
      |p| > 0
      && (i < 1072 ==> p[|p| - 1] !in MouseActions && p[|p| - 1] !in Modifiers)
      && (1072 <= i < 1120 ==> p[|p| - 1] in MouseActions)
      && (1120 <= i ==> p[|p| - 1] in Modifiers && p[|p| - 1] !in MouseActions)
  {
    if i < 1072 {
      BaseKeyShape(i / 16);
    } else if i >= 1120 {
      ModifiersShape();
    }
  }

  /** No two catalogue positions are joined from the same names. */
  lemma PartsInjective(i: nat, j: nat)
    requires i < CatalogueSize && j < CatalogueSize && Parts(i) == Parts(j)
    ensures i == j
  {
    PartsGroup(i);
    PartsGroup(j);
    if i < 1072 && j < 1072 {
      KeyboardPartsInjective(i, j);
    } else if 1072 <= i < 1120 && 1072 <= j < 1120 {
      MousePartsInjective(i, j);
    } else if 1120 <= i && 1120 <= j {
      ModifierPartsInjective(i, j);
    }
  }

  predicate DistinctKeys(es: seq<Shortcut>) {
    forall a, b :: 0 <= a < b < |es| ==> es[a].key != es[b].key
  }

  /** The catalogue holds 1124 different keys. */
  lemma CatalogueDistinct()
    ensures DistinctKeys(Catalogue())
  {
    var cat := Catalogue();
    forall i, j | 0 <= i < j < |cat| ensures cat[i].key != cat[j].key {
      assert cat[i] == CatalogueEntry(i) && cat[j] == CatalogueEntry(j);
      SplitEntry(i);
      SplitEntry(j);
      if CatalogueEntry(i).key == CatalogueEntry(j).key {
        PartsInjective(i, j);
      }
    }
  }

  lemma PartsLast(i: nat)
    requires i < CatalogueSize
    ensures |Parts(i)| > 0 && Parts(i)[|Parts(i)| - 1] != "None" && Parts(i)[|Parts(i)| - 1] != ""
  {
    if i < 1072 {
      BaseKeyShape(i / 16);
    } else if i < 1120 {
      MouseActionsShape();
    } else {
      ModifiersShape();
    }
  }

  /** "None" and the empty string, which the lookups let through, are no
      catalogue keys. */
  lemma EntryIsNotNone(i: nat)
    requires i < CatalogueSize
    ensures CatalogueEntry(i).key != "None" && CatalogueEntry(i).key != ""
  {
    SplitEntry(i);
    SplitNoSep("None", '+');
    SplitNoSep("", '+');
    PartsLast(i);
  }

  /** With a modifier in front, a combination contains a `+`, so it is neither a
      character key nor a modifier. */
  lemma ComboHasPlus(c: nat, key: string)
    requires 0 < c < |ModCombos|
    ensures '+' in Combo(ModCombos[c], key) && |Combo(ModCombos[c], key)| > 1
    ensures Combo(ModCombos[c], key) !in Modifiers
  {
    ModCombosShape();
    ModifiersShape();
    var parts := ModCombos[c] + [key];
    assert Join("+", parts) == parts[0] + "+" + Join("+", parts[1..]);
    var s := Combo(ModCombos[c], key);
    assert s[|parts[0]|] == '+';
  }

  /** Disabled by default are exactly the letters, the digits and the modifiers
      typed alone. */
  lemma DefaultEnabled(i: nat)
    requires i < CatalogueSize
    ensures !CatalogueEntry(i).enabled <==>
      IsCharacterKey(CatalogueEntry(i).key) || CatalogueEntry(i).key in Modifiers
  {
    ModCombosShape();
    if i < 1072 {
      var b, c := i / 16, i % 16;
      if c == 0 {
        BaseKeyShape(b);
      } else {
        ComboHasPlus(c, BaseKey(b));
      }
    } else if i < 1120 {
      var m, c := (i - 1072) / 16, (i - 1072) % 16;
      if c == 0 {
        MouseActionsShape();
        assert MouseActions[m] !in Modifiers by { ModifiersShape(); }
      } else {
        ComboHasPlus(c, MouseActions[m]);
      }
    }
  }
  // ---------------------------------------------------------------- flags

  datatype Flags = Flags(record: bool, play: bool)

  /** `ShortcutManager.shortcuts`: the flags of every known key. */
  type Table = map<string, Flags>

  /** Entries stored one after the other, a later key overwriting an earlier one. */
  function Store(t: Table, es: seq<Shortcut>): (r: Table)
    ensures forall k :: k in r <==> k in t || exists j :: 0 <= j < |es| && es[j].key == k
    decreases |es|
  {
    if |es| == 0 then t
    else
      var r := Store(t[es[0].key := Flags(es[0].enabled, es[0].enabled)], es[1..]);
      assert forall j :: 0 <= j < |es[1..]| ==> es[1..][j] == es[j + 1];
      r
  }

  lemma {:induction false} StoreAt(t: Table, es: seq<Shortcut>, j: nat)
    requires j < |es| && DistinctKeys(es)
    ensures Store(t, es)[es[j].key] == Flags(es[j].enabled, es[j].enabled)
    decreases |es|
  {
    var t' := t[es[0].key := Flags(es[0].enabled, es[0].enabled)];
    if j == 0 {
      StoreUntouched(t', es[1..], es[0].key);
    } else {
      assert es[1..][j - 1] == es[j];
      StoreAt(t', es[1..], j - 1);
    }
  }

  lemma {:induction false} StoreUntouched(t: Table, es: seq<Shortcut>, k: string)
    requires k in t
    requires forall j :: 0 <= j < |es| ==> es[j].key != k
    ensures Store(t, es)[k] == t[k]
    decreases |es|
  {
    if |es| > 0 {
      StoreUntouched(t[es[0].key := Flags(es[0].enabled, es[0].enabled)], es[1..], k);
    }
  }

  /** The table `load` starts from: every catalogue key, both flags at the
      entry's default. */
  function Defaults(): Table {
    Store(map[], Catalogue())
  }

  lemma DefaultsAt(i: nat)
    requires i < CatalogueSize
    ensures CatalogueEntry(i).key in Defaults()
    ensures Defaults()[CatalogueEntry(i).key] == Flags(CatalogueEntry(i).enabled, CatalogueEntry(i).enabled)
  {
    CatalogueDistinct();
    StoreAt(map[], Catalogue(), i);
    assert Catalogue()[i] == CatalogueEntry(i);
  }

  lemma StoreKeys(es: seq<Shortcut>)
    ensures forall k :: k in Store(map[], es) <==> k in KeysOf(es)
  {
    var ks := KeysOf(es);
    forall k ensures k in Store(map[], es) <==> k in ks {
      if k in Store(map[], es) {
        var j :| 0 <= j < |es| && es[j].key == k;
        assert ks[j] == k;
      }
    }
  }

  /** The default table holds exactly the catalogue's keys. */
  lemma DefaultsKeys()
    ensures forall k :: k in Defaults() <==> k in CatalogueKeys()
  {
    StoreKeys(Catalogue());
  }

  // ---------------------------------------------------------------- the settings file

  const FileHeader: seq<string> := ["Key", "RecordEnabled", "PlayEnabled"]

  function Bit(b: bool): string {
    if b then "1" else "0"
  }

  /** `ShortcutManager.load`: the defaults, then the rows after the header.
      A header whose second field is `Enabled` marks the legacy layout, whose one
      flag is applied to both. A missing or empty file leaves the defaults (a
      missing one is then written back, which is not modelled). */
  function Load(file: Option<seq<seq<string>>>): (t: Table)
    ensures t.Keys == Defaults().Keys
    ensures file.None? ==> t == Defaults()
  {
    LoadOnto(Defaults(), file)
  }

  /** The rows of a file applied over the table `base`. */
  function LoadOnto(base: Table, file: Option<seq<seq<string>>>): (t: Table)
    ensures t.Keys == base.Keys
  {
    if file.None? || |file.value| == 0 || |file.value[0]| == 0 then base
    else
      var header := file.value[0];
      ApplyRows(base, file.value[1..], |header| >= 3 && header[1] == "Enabled")
  }

  /** The loop over the data rows. Blank rows and unknown keys are skipped; a
      current-layout row with fewer than three fields is skipped. A legacy row
      with a known key and no second field raises IndexError, which `load`
      catches: the rows after it are never read, the ones before it stay applied. */
  function ApplyRows(t: Table, rows: seq<seq<string>>, legacy: bool): (r: Table)
    ensures r.Keys == t.Keys
    decreases |rows|
  {
    if |rows| == 0 then t
    else
      var row := rows[0];
      if |row| == 0 || row[0] !in t then ApplyRows(t, rows[1..], legacy)
      else if legacy then
        if |row| < 2 then t
        else ApplyRows(t[row[0] := Flags(row[1] == "1", row[1] == "1")], rows[1..], legacy)
      else if |row| >= 3 then
        ApplyRows(t[row[0] := Flags(row[1] == "1", row[2] == "1")], rows[1..], legacy)
      else ApplyRows(t, rows[1..], legacy)
  }

  /** `ShortcutManager.save`: the header, then one row per catalogue key in
      catalogue order. */
  function Save(t: Table): (rows: seq<seq<string>>)
    ensures |rows| >= 1 && rows[0] == FileHeader
  {
    [FileHeader] + SaveRows(t, CatalogueKeys())
  }

  function SaveRows(t: Table, ks: seq<string>): (rows: seq<seq<string>>)
    ensures forall i :: 0 <= i < |rows| ==> |rows[i]| == 3 && rows[i][0] in t
  {
    if |ks| == 0 then []
    else if ks[0] in t then [[ks[0], Bit(t[ks[0]].record), Bit(t[ks[0]].play)]] + SaveRows(t, ks[1..])
    else SaveRows(t, ks[1..])
  }

  lemma {:induction false} ApplySavedAt(u: Table, t: Table, ks: seq<string>, k: string)
    requires t.Keys <= u.Keys && k in u
    ensures ApplyRows(u, SaveRows(t, ks), false)[k] == if k in t && k in ks then t[k] else u[k]
    decreases |ks|
  {
    if |ks| > 0 {
      var key := ks[0];
      if key in t {
        var row := [key, Bit(t[key].record), Bit(t[key].play)];
        var rest := SaveRows(t, ks[1..]);
        assert SaveRows(t, ks) == [row] + rest;
        assert ([row] + rest)[0] == row && ([row] + rest)[1..] == rest;
        var u' := u[key := Flags(row[1] == "1", row[2] == "1")];
        assert u' == u[key := t[key]];
        ApplySavedAt(u', t, ks[1..], k);
      } else {
        ApplySavedAt(u, t, ks[1..], k);
      }
    }
  }

  lemma ApplySavedAll(u: Table, t: Table, ks: seq<string>)
    requires t.Keys == u.Keys && forall k :: k in u ==> k in ks
    ensures ApplyRows(u, SaveRows(t, ks), false) == t
  {
    forall k | k in t ensures ApplyRows(u, SaveRows(t, ks), false)[k] == t[k] {
      ApplySavedAt(u, t, ks, k);
    }
  }

  /** Saving and loading again gives back both flags of every key. */
  lemma LoadSave(t: Table)
    requires t.Keys == Defaults().Keys
    ensures Load(Some(Save(t))) == t
  {
    var rows := Save(t);
    LoadCurrentLayout(Defaults(), rows);
    assert rows[1..] == SaveRows(t, CatalogueKeys());
    DefaultsInCatalogue();
    ApplySavedAll(Defaults(), t, CatalogueKeys());
  }

  /** A file with the current header is read row by row in the current layout. */
  lemma LoadCurrentLayout(base: Table, rows: seq<seq<string>>)
    requires |rows| > 0 && rows[0] == FileHeader
    ensures LoadOnto(base, Some(rows)) == ApplyRows(base, rows[1..], false)
  {
    assert rows[0][1] == "RecordEnabled";
    assert |rows[0][1]| != |"Enabled"|;
  }

  lemma DefaultsInCatalogue()
    ensures forall k :: k in Defaults() ==> k in CatalogueKeys()
  {
    DefaultsKeys();
  }

  /** In the legacy layout a record flag always equals its playback flag. */
  lemma {:induction false} LegacyRowsSymmetric(t: Table, rows: seq<seq<string>>)
    requires forall k :: k in t ==> t[k].record == t[k].play
    ensures forall k :: k in ApplyRows(t, rows, true) ==>
      ApplyRows(t, rows, true)[k].record == ApplyRows(t, rows, true)[k].play
    decreases |rows|
  {
    if |rows| > 0 {
      var row := rows[0];
      if |row| == 0 || row[0] !in t {
        LegacyRowsSymmetric(t, rows[1..]);
      } else if |row| >= 2 {
        LegacyRowsSymmetric(t[row[0] := Flags(row[1] == "1", row[1] == "1")], rows[1..]);
      }
    }
  }

  lemma DefaultsSymmetric()
    ensures forall k :: k in Defaults() ==> Defaults()[k].record == Defaults()[k].play
  {
    DefaultsKeys();
    forall k | k in Defaults() ensures Defaults()[k].record == Defaults()[k].play {
      DefaultSymmetricAt(k);
    }
  }

  lemma DefaultSymmetricAt(k: string)
    requires k in CatalogueKeys()
    ensures k in Defaults() && Defaults()[k].record == Defaults()[k].play
  {
    var i :| 0 <= i < |CatalogueKeys()| && CatalogueKeys()[i] == k;
    assert Catalogue()[i] == CatalogueEntry(i);
    DefaultsAt(i);
  }

  /** Loading a legacy file leaves every key's two flags equal. */
  lemma LoadLegacy(rows: seq<seq<string>>)
    requires |rows| > 0 && |rows[0]| >= 3 && rows[0][1] == "Enabled"
    ensures forall k :: k in Load(Some(rows)) ==> Load(Some(rows))[k].record == Load(Some(rows))[k].play
  {
    DefaultsSymmetric();
    LegacyRowsSymmetric(Defaults(), rows[1..]);
  }

  /** A key that no usable row names keeps the flags it had. */
  lemma {:induction false} ApplyRowsUntouched(t: Table, rows: seq<seq<string>>, legacy: bool, k: string)
    requires k in t
    requires forall i :: 0 <= i < |rows| && |rows[i]| >= (if legacy then 2 else 3) ==> rows[i][0] != k
    ensures ApplyRows(t, rows, legacy)[k] == t[k]
    decreases |rows|
  {
    if |rows| > 0 {
      var row := rows[0];
      assert forall i :: 0 <= i < |rows[1..]| ==> rows[1..][i] == rows[i + 1];
      if |row| == 0 || row[0] !in t {
        ApplyRowsUntouched(t, rows[1..], legacy, k);
      } else if legacy {
        if |row| >= 2 {
          ApplyRowsUntouched(t[row[0] := Flags(row[1] == "1", row[1] == "1")], rows[1..], legacy, k);
        }
      } else if |row| >= 3 {
        ApplyRowsUntouched(t[row[0] := Flags(row[1] == "1", row[2] == "1")], rows[1..], legacy, k);
      } else {
        ApplyRowsUntouched(t, rows[1..], legacy, k);
      }
    }
  }

  // ---------------------------------------------------------------- lookups and updates

  /** `is_allowed_record`: "None" and the empty combination always pass, unknown
      ones never do. */
  function IsAllowedRecord(t: Table, combo: string): (ok: bool)
    ensures combo == "None" || combo == "" ==> ok
    ensures combo != "None" && combo != "" && combo !in t ==> !ok
  {
    if combo == "None" || combo == "" then true
    else if combo in t then t[combo].record
    else false
  }

  /** `is_allowed_playback`: the same rule with the playback flag. */
  function IsAllowedPlayback(t: Table, combo: string): (ok: bool)
    ensures combo == "None" || combo == "" ==> ok
    ensures combo != "None" && combo != "" && combo !in t ==> !ok
  {
    if combo == "None" || combo == "" then true
    else if combo in t then t[combo].play
    else false
  }

  /** `update_shortcut`: both flags of a known key; an unknown key is ignored. */
  function UpdateShortcut(t: Table, key: string, record: bool, play: bool): (r: Table)
    ensures r.Keys == t.Keys
    ensures key in t ==> r[key] == Flags(record, play)
    ensures forall k :: k in t && k != key ==> r[k] == t[k]
    ensures key !in t ==> r == t
  {
    if key in t then t[key := Flags(record, play)] else t
  }

  /** After an update the lookups answer with the new flags. */
  lemma UpdateThenAllowed(t: Table, key: string, record: bool, play: bool, other: string)
    requires key in t && key != "None" && key != ""
    ensures IsAllowedRecord(UpdateShortcut(t, key, record, play), key) == record
    ensures IsAllowedPlayback(UpdateShortcut(t, key, record, play), key) == play
    ensures other != key ==>
      IsAllowedRecord(UpdateShortcut(t, key, record, play), other) == IsAllowedRecord(t, other)
      && IsAllowedPlayback(UpdateShortcut(t, key, record, play), other) == IsAllowedPlayback(t, other)
  {
  }

  /** With the default table, a catalogue key is allowed exactly when its
      default is enabled. */
  lemma DefaultAllowed(i: nat)
    requires i < CatalogueSize
    ensures IsAllowedRecord(Defaults(), CatalogueEntry(i).key) == CatalogueEntry(i).enabled
    ensures IsAllowedPlayback(Defaults(), CatalogueEntry(i).key) == CatalogueEntry(i).enabled
  {
    DefaultsAt(i);
    EntryIsNotNone(i);
  }

  lemma CtrlCEntry()
    ensures CatalogueEntry(33).key == "Ctrl+C" && CatalogueEntry(33).enabled
  {
    assert BaseKey(2) == "C";
    assert ModCombos[1] == ["Ctrl"];
    assert Join("+", ["Ctrl", "C"]) == "Ctrl+C";
  }

  lemma CtrlCDefault()
    ensures "Ctrl+C" in Defaults() && Defaults()["Ctrl+C"] == Flags(true, true)
  {
    CtrlCEntry();
    DefaultsAt(33);
  }

  /** Ctrl+C is enabled by default; after turning its record flag off, a save
      and a load keep it off while playback stays on. */
  lemma CtrlCScenario()
    ensures IsAllowedRecord(Defaults(), "Ctrl+C") && IsAllowedPlayback(Defaults(), "Ctrl+C")
    ensures var t := UpdateShortcut(Defaults(), "Ctrl+C", false, true);
      !IsAllowedRecord(Load(Some(Save(t))), "Ctrl+C") && IsAllowedPlayback(Load(Some(Save(t))), "Ctrl+C")
  {
    CtrlCDefault();
    var t := UpdateShortcut(Defaults(), "Ctrl+C", false, true);
    LoadSave(t);
  }

  /** `set_all`: every known key, each flag only when given. */
  function SetAll(t: Table, record: Option<bool>, play: Option<bool>): (r: Table)
    ensures r.Keys == t.Keys
    ensures forall k :: k in t ==> r[k].record == record.GetOr(t[k].record) && r[k].play == play.GetOr(t[k].play)
  {
    map k | k in t :: Flags(record.GetOr(t[k].record), play.GetOr(t[k].play))
  }

  // ---------------------------------------------------------------- descriptions

  /** One row of the list shown to the user (`get_all_shortcuts`). */
  datatype Entry = Entry(key: string, record: bool, play: bool, desc: string)

  /** The description of a key: from the application definitions when some are
      selected (empty when they do not name the key), the key itself otherwise. */
  function Description(key: string, apps: Option<map<string, string>>): string {
    if apps.Some? && key in apps.value then apps.value[key]
    else if apps.Some? then ""
    else key
  }

  /** `get_all_shortcuts`: the known keys in catalogue order. */
  function Entries(t: Table, ks: seq<string>, apps: Option<map<string, string>>): (es: seq<Entry>)
    ensures |es| <= |ks|
    ensures forall i :: 0 <= i < |es| ==>
      (es[i].key in t && es[i].key in ks
       && es[i].record == t[es[i].key].record && es[i].play == t[es[i].key].play
       && es[i].desc == Description(es[i].key, apps))
  {
    if |ks| == 0 then []
    else if ks[0] in t then
      [Entry(ks[0], t[ks[0]].record, t[ks[0]].play, Description(ks[0], apps))] + Entries(t, ks[1..], apps)
    else Entries(t, ks[1..], apps)
  }

  /** Every known key of the order is listed. */
  lemma {:induction false} EntriesComplete(t: Table, ks: seq<string>, apps: Option<map<string, string>>, k: string)
    requires k in ks && k in t
    ensures exists i :: 0 <= i < |Entries(t, ks, apps)| && Entries(t, ks, apps)[i].key == k
  {
    var es := Entries(t, ks, apps);
    if ks[0] == k {
      assert es[0].key == k;
    } else {
      EntriesComplete(t, ks[1..], apps, k);
      var rest := Entries(t, ks[1..], apps);
      var i :| 0 <= i < |rest| && rest[i].key == k;
      if ks[0] in t {
        assert es[i + 1] == rest[i];
      } else {
        assert es[i] == rest[i];
      }
    }
  }

  /** A definition row: at least two fields, key and description non-empty
      once stripped. */
  function Definition(row: seq<string>): Option<(string, string)> {
    if |row| >= 2 && Strip(row[0]) != "" && Strip(row[1]) != "" then Some((Strip(row[0]), Strip(row[1])))
    else None
  }

  /** Appends `desc` to the key's list unless it is already there. */
  function AddDescription(acc: map<string, seq<string>>, key: string, desc: string): map<string, seq<string>> {
    if key !in acc then acc[key := [desc]]
    else if desc in acc[key] then acc
    else acc[key := acc[key] + [desc]]
  }

  /** The definitions of the rows, in order, collected per key. */
  function Gather(acc: map<string, seq<string>>, rows: seq<seq<string>>): map<string, seq<string>>
    decreases |rows|
  {
    if |rows| == 0 then acc
    else match Definition(rows[0])
      case Some((key, desc)) => Gather(AddDescription(acc, key, desc), rows[1..])
      case None => Gather(acc, rows[1..])
  }

  function Concat(files: seq<seq<seq<string>>>): seq<seq<string>> {
    if |files| == 0 then [] else files[0] + Concat(files[1..])
  }

  /** `load_app_definitions`: the rows of the existing files, file after file;
      each key's descriptions joined with the ideographic comma. */
  function AppDefinitions(files: seq<seq<seq<string>>>): map<string, string> {
    var d := Gather(map[], Concat(files));
    map k | k in d :: Join("、", d[k])
  }

  predicate NoDuplicates(xs: seq<string>) {
    forall i, j :: 0 <= i < j < |xs| ==> xs[i] != xs[j]
  }

  /** A key is gathered exactly when some row defines it. */
  lemma {:induction false} GatherKeys(acc: map<string, seq<string>>, rows: seq<seq<string>>, key: string)
    ensures key in Gather(acc, rows) <==>
      key in acc || exists i :: 0 <= i < |rows| && Definition(rows[i]).Some? && Definition(rows[i]).value.0 == key
    decreases |rows|
  {
    if |rows| > 0 {
      assert forall i :: 0 <= i < |rows[1..]| ==> rows[1..][i] == rows[i + 1];
      match Definition(rows[0])
      case Some((k, d)) =>
        GatherKeys(AddDescription(acc, k, d), rows[1..], key);
      case None =>
        GatherKeys(acc, rows[1..], key);
    }
  }

  /** Gathering only appends, and never a description the key already has. */
  lemma {:induction false} GatherAppends(acc: map<string, seq<string>>, rows: seq<seq<string>>, key: string)
    requires key in acc && NoDuplicates(acc[key])
    ensures key in Gather(acc, rows)
    ensures acc[key] <= Gather(acc, rows)[key]
    ensures NoDuplicates(Gather(acc, rows)[key])
    decreases |rows|
  {
    if |rows| > 0 {
      match Definition(rows[0])
      case Some((k, d)) =>
        GatherAppends(AddDescription(acc, k, d), rows[1..], key);
      case None =>
        GatherAppends(acc, rows[1..], key);
    }
  }

  /** A key that first appears in the rows gets a list without duplicates. */
  lemma GatherNoDuplicates(acc: map<string, seq<string>>, rows: seq<seq<string>>, key: string)
    requires key in acc ==> NoDuplicates(acc[key])
    requires key in Gather(acc, rows)
    ensures NoDuplicates(Gather(acc, rows)[key])
    decreases |rows|
  {
    if key in acc {
      GatherAppends(acc, rows, key);
    } else if |rows| > 0 {
      match Definition(rows[0])
      case Some((k, d)) =>
        GatherNoDuplicates(AddDescription(acc, k, d), rows[1..], key);
      case None =>
        GatherNoDuplicates(acc, rows[1..], key);
    }
  }

  /** A key holds a description exactly when it held it before or some row
      defines the key with it. */
  lemma {:induction false} GatherMembers(acc: map<string, seq<string>>, rows: seq<seq<string>>, key: string, desc: string)
    requires key in Gather(acc, rows)
    ensures desc in Gather(acc, rows)[key] <==>
      (key in acc && desc in acc[key]) || exists i :: 0 <= i < |rows| && Definition(rows[i]) == Some((key, desc))
    decreases |rows|
  {
    if |rows| > 0 {
      assert forall i :: 0 <= i < |rows[1..]| ==> rows[1..][i] == rows[i + 1];
      match Definition(rows[0])
      case Some((k, d)) =>
        GatherMembers(AddDescription(acc, k, d), rows[1..], key, desc);
      case None =>
        GatherMembers(acc, rows[1..], key, desc);
    }
  }

  /** `load_app_definitions` knows a key exactly when some row of some file
      defines it. */
  lemma AppDefinitionsKeys(files: seq<seq<seq<string>>>, key: string)
    ensures key in AppDefinitions(files) <==>
      exists i :: 0 <= i < |Concat(files)| && Definition(Concat(files)[i]).Some?
        && Definition(Concat(files)[i]).value.0 == key
  {
    var rows := Concat(files);
    var d := Gather(map[], rows);
    GatherKeys(map[], rows, key);
    assert key in d <==>
      exists i :: 0 <= i < |rows| && Definition(rows[i]).Some? && Definition(rows[i]).value.0 == key;
    assert key in AppDefinitions(files) <==> key in d;
  }

  /** The text of a known key: its distinct descriptions, in first-seen order,
      joined with the ideographic comma; a description is among them exactly
      when some row defines the key with it. */
  lemma AppDefinitionsValue(files: seq<seq<seq<string>>>, key: string, desc: string)
    requires key in AppDefinitions(files)
    ensures key in Gather(map[], Concat(files))
    ensures AppDefinitions(files)[key] == Join("、", Gather(map[], Concat(files))[key])
    ensures NoDuplicates(Gather(map[], Concat(files))[key])
    ensures desc in Gather(map[], Concat(files))[key] <==>
      exists i :: 0 <= i < |Concat(files)| && Definition(Concat(files)[i]) == Some((key, desc))
  {
    GatherNoDuplicates(map[], Concat(files), key);
    GatherMembers(map[], Concat(files), key, desc);
  }
}
