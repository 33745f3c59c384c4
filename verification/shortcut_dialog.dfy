/** The list in the shortcut settings dialog (shortcut_settings_dialog.py): which
    entries the filters show, how each shown row is tagged and which rows stay
    selected across a refresh, and how a double click or the space bar changes
    the flags. The Tk widgets are replaced by their values: the filter fields,
    the clicked column and the keys of the selected rows. */
module ShortcutDialog {
  import opened Text
  import opened Optional
  import opened Shortcuts

  /** A read-only combo box offering 全て (all), 有効 (enabled) and 無効 (disabled). */
  datatype Choice = All | OnlyEnabled | OnlyDisabled

  datatype Filter = Filter(
    text: string,       // the search box
    hasDesc: bool,      // 説明がある操作のみ表示: only entries with a description
    ctrl: bool, shift: bool, alt: bool, win: bool,
    none: bool,         // なし: keys without any modifier
    rec: Choice, play: Choice)

  /** The dialog's initial state: nothing typed, nothing checked, both combo
      boxes on 全て. */
  const NoFilter := Filter("", false, false, false, false, false, false, All, All)

  predicate HasModifier(key: string) {
    Contains(key, "Ctrl") || Contains(key, "Shift") || Contains(key, "Alt") || Contains(key, "Win")
  }

  predicate AnyModifierBox(f: Filter) {
    f.ctrl || f.shift || f.alt || f.win || f.none
  }

  /** The checked modifier boxes, combined with "or"; none checked lets every
      key through. */
  predicate ModifierMatch(f: Filter, key: string) {
    !AnyModifierBox(f)
    || (f.ctrl && Contains(key, "Ctrl"))
    || (f.shift && Contains(key, "Shift"))
    || (f.alt && Contains(key, "Alt"))
    || (f.win && Contains(key, "Win"))
    || (f.none && !HasModifier(key))
  }

  /** The search text, lower-cased, inside the lower-cased key or description. */
  predicate TextMatch(f: Filter, e: Entry) {
    var q := Lower(f.text);
    q == "" || Contains(Lower(e.key), q) || Contains(Lower(e.desc), q)
  }

  predicate ChoiceMatch(c: Choice, flag: bool) {
    match c
    case All => true
    case OnlyEnabled => flag
    case OnlyDisabled => !flag
  }

  /** The five filters of `_refresh_list`, in the order it applies them. */
  predicate Visible(f: Filter, e: Entry) {
    && !(f.hasDesc && e.desc == "")
    && TextMatch(f, e)
    && ModifierMatch(f, e.key)
    && ChoiceMatch(f.rec, e.record)
    && ChoiceMatch(f.play, e.play)
  }

  /** The row colouring. */
  datatype Tag = Enabled | Disabled | RecDisabled | PlayDisabled

  function TagOf(record: bool, play: bool): (t: Tag)
    ensures t == Disabled <==> !record && !play
    ensures t == RecDisabled <==> !record && play
    ensures t == PlayDisabled <==> record && !play
    ensures t == Enabled <==> record && play
  {
    if !record && !play then Disabled
    else if !record then RecDisabled
    else if !play then PlayDisabled
    else Enabled
  }

  function Mark(b: bool): string {
    if b then "✔" else "✘"
  }

  datatype Row = Row(entry: Entry, recMark: string, playMark: string, tag: Tag, selected: bool)

  /** `_refresh_list`: the visible entries in list order, tagged, and selected
      again when their key was selected before. */
  function Refresh(entries: seq<Entry>, f: Filter, selected: seq<string>): (rows: seq<Row>)
    ensures |rows| <= |entries|
  {
    if |entries| == 0 then []
    else
      var e := entries[0];
      var rest := Refresh(entries[1..], f, selected);
      if Visible(f, e) then
        [Row(e, Mark(e.record), Mark(e.play), TagOf(e.record, e.play), e.key in selected)] + rest
      else rest
  }

  /** Every row shows a visible entry, tagged and marked by its two flags, and
      selected exactly when its key was selected before. */
  lemma {:induction false} RefreshRows(entries: seq<Entry>, f: Filter, selected: seq<string>)
    ensures forall i :: 0 <= i < |Refresh(entries, f, selected)| ==> RowShows(Refresh(entries, f, selected)[i], entries, f, selected)
  {
    if |entries| > 0 {
      RefreshRows(entries[1..], f, selected);
      var rows, rest := Refresh(entries, f, selected), Refresh(entries[1..], f, selected);
      forall i | 0 <= i < |rows| ensures RowShows(rows[i], entries, f, selected) {
        if Visible(f, entries[0]) && i > 0 {
          assert rows[i] == rest[i - 1];
        } else if !Visible(f, entries[0]) {
          assert rows[i] == rest[i];
        }
      }
    }
  }

  /** What a row of the refreshed list stands for. */
  predicate RowShows(r: Row, entries: seq<Entry>, f: Filter, selected: seq<string>) {
    && r.entry in entries && Visible(f, r.entry)
    && r.tag == TagOf(r.entry.record, r.entry.play)
    && r.recMark == Mark(r.entry.record) && r.playMark == Mark(r.entry.play)
    && (r.selected <==> r.entry.key in selected)
  }

  /** Every visible entry gets a row. */
  lemma {:induction false} RefreshComplete(entries: seq<Entry>, f: Filter, selected: seq<string>, e: Entry)
    requires e in entries && Visible(f, e)
    ensures exists i :: 0 <= i < |Refresh(entries, f, selected)| && Refresh(entries, f, selected)[i].entry == e
  {
    var rows := Refresh(entries, f, selected);
    if entries[0] == e {
      assert rows[0].entry == e;
    } else {
      RefreshComplete(entries[1..], f, selected, e);
      var rest := Refresh(entries[1..], f, selected);
      var i :| 0 <= i < |rest| && rest[i].entry == e;
      RefreshTail(entries, f, selected, i);
    }
  }

  /** A row of the refreshed tail is a row of the whole refresh. */
  lemma RefreshTail(entries: seq<Entry>, f: Filter, selected: seq<string>, i: nat)
    requires |entries| > 0 && i < |Refresh(entries[1..], f, selected)|
    ensures exists j :: (0 <= j < |Refresh(entries, f, selected)|
      && Refresh(entries, f, selected)[j] == Refresh(entries[1..], f, selected)[i])
  {
    var rows, rest := Refresh(entries, f, selected), Refresh(entries[1..], f, selected);
    if Visible(f, entries[0]) {
      assert rows[i + 1] == rest[i];
    } else {
      assert rows[i] == rest[i];
    }
  }

  /** A selected key that is still visible after the refresh is still selected. */
  lemma SelectionSurvives(entries: seq<Entry>, f: Filter, selected: seq<string>, e: Entry)
    requires e in entries && Visible(f, e) && e.key in selected
    ensures exists i ::
      (0 <= i < |Refresh(entries, f, selected)|
       && Refresh(entries, f, selected)[i].entry == e && Refresh(entries, f, selected)[i].selected)
  {
    RefreshComplete(entries, f, selected, e);
    RefreshRows(entries, f, selected);
  }

  /** The initial filter shows every entry, in order. */
  lemma {:induction false} NoFilterShowsAll(entries: seq<Entry>, selected: seq<string>)
    ensures |Refresh(entries, NoFilter, selected)| == |entries|
    ensures forall i :: 0 <= i < |entries| ==> Refresh(entries, NoFilter, selected)[i].entry == entries[i]
  {
    if |entries| > 0 {
      NoFilterShowsAll(entries[1..], selected);
      assert Lower(NoFilter.text) == "";
      assert Visible(NoFilter, entries[0]);
    }
  }

  /** With the description box checked, no shown row has an empty description. */
  lemma HasDescHidesEmpty(entries: seq<Entry>, f: Filter, selected: seq<string>, i: nat)
    requires f.hasDesc && i < |Refresh(entries, f, selected)|
    ensures Refresh(entries, f, selected)[i].entry.desc != ""
  {
    RefreshRows(entries, f, selected);
  }

  /** Only なし checked: exactly the keys without a modifier are shown (the other
      filters aside). */
  lemma NoneBoxAlone(f: Filter, key: string)
    requires f.none && !f.ctrl && !f.shift && !f.alt && !f.win
    ensures ModifierMatch(f, key) <==> !HasModifier(key)
  {
  }

  /** Checking one more modifier box never hides a key another box matched. */
  lemma ModifierBoxesCombineByOr(f: Filter, key: string)
    requires ModifierMatch(f, key) && AnyModifierBox(f)
    ensures ModifierMatch(f.(ctrl := true), key)
    ensures ModifierMatch(f.(shift := true), key)
    ensures ModifierMatch(f.(alt := true), key)
    ensures ModifierMatch(f.(win := true), key)
    ensures ModifierMatch(f.(none := true), key)
  {
  }

  lemma {:induction false} LowerSlice(s: string, i: int, j: int)
    requires 0 <= i <= j <= |s|
    ensures Lower(s)[i..j] == Lower(s[i..j])
  {
    assert forall k :: 0 <= k < j - i ==> Lower(s)[i..j][k] == LowerChar(s[i + k]);
  }

  /** The search ignores case: a key or description containing the text as
      typed, in whatever case, is matched. */
  lemma TextMatchIgnoresCase(f: Filter, e: Entry)
    requires Contains(e.key, f.text) || Contains(e.desc, f.text)
    ensures TextMatch(f, e)
  {
    if Contains(e.key, f.text) {
      var i :| OccursAt(f.text, e.key, i);
      LowerSlice(e.key, i, i + |f.text|);
      assert OccursAt(Lower(f.text), Lower(e.key), i);
    } else {
      var i :| OccursAt(f.text, e.desc, i);
      LowerSlice(e.desc, i, i + |f.text|);
      assert OccursAt(Lower(f.text), Lower(e.desc), i);
    }
  }

  // ---------------------------------------------------------------- changing flags

  /** The column a double click lands on: #2 is Rec, #3 is Play. */
  datatype Column = KeyColumn | RecColumn | PlayColumn | DescColumn

  /** `_on_double_click` on a cell of the row for `key`: the Rec column toggles
      the record flag, the Play column the playback flag, any other column sets
      both to the opposite of the record flag. A click outside a cell or outside
      any row changes nothing. */
  function DoubleClick(t: Table, onCell: bool, key: Option<string>, col: Column): (r: Table)
    ensures r.Keys == t.Keys
    ensures !onCell || key.None? ==> r == t
  {
    if !onCell || key.None? then t
    else
      var k := key.value;
      var rec, play := IsAllowedRecord(t, k), IsAllowedPlayback(t, k);
      match col
      case RecColumn => UpdateShortcut(t, k, !rec, play)
      case PlayColumn => UpdateShortcut(t, k, rec, !play)
      case _ => UpdateShortcut(t, k, !rec, !rec)
  }

  /** Two double clicks on the same Rec or Play cell undo each other. */
  lemma DoubleClickTwice(t: Table, key: string, col: Column)
    requires key in t && key != "None" && key != ""
    requires col == RecColumn || col == PlayColumn
    ensures DoubleClick(DoubleClick(t, true, Some(key), col), true, Some(key), col) == t
  {
    var t1 := DoubleClick(t, true, Some(key), col);
    assert t1[key].record == (if col == RecColumn then !t[key].record else t[key].record);
    assert t1[key].play == (if col == PlayColumn then !t[key].play else t[key].play);
  }

  /** A double click on a known key changes that key only: the clicked flag
      flips, or, off the flag columns, both become the opposite of record. */
  lemma DoubleClickEffect(t: Table, key: string, col: Column)
    requires key in t && key != "None" && key != ""
    ensures var r := DoubleClick(t, true, Some(key), col);
      (forall k :: k in t && k != key ==> r[k] == t[k])
      && (col == RecColumn ==> r[key] == Flags(!t[key].record, t[key].play))
      && (col == PlayColumn ==> r[key] == Flags(t[key].record, !t[key].play))
      && (col != RecColumn && col != PlayColumn ==> r[key] == Flags(!t[key].record, !t[key].record))
  {
  }

  /** Both flags of every key in `keys` set to `target`, one after the other. */
  function UpdateAll(t: Table, keys: seq<string>, target: bool): (r: Table)
    ensures r.Keys == t.Keys
    ensures forall k :: k in t && k in keys ==> r[k] == Flags(target, target)
    ensures forall k :: k in t && k !in keys ==> r[k] == t[k]
  {
    if |keys| == 0 then t
    else UpdateAll(UpdateShortcut(t, keys[0], target, target), keys[1..], target)
  }

  /** `_on_space_key`: every selected row gets both flags set to the opposite
      of the first selected row's record flag; nothing happens without a
      selection. */
  function Space(t: Table, selection: seq<string>): (r: Table)
    ensures r.Keys == t.Keys
  {
    if |selection| == 0 then t
    else UpdateAll(t, selection, !IsAllowedRecord(t, selection[0]))
  }

  /** The space bar makes all selected rows agree: both flags equal the flipped
      record flag of the first one, and unselected keys are untouched. */
  lemma SpaceEffect(t: Table, selection: seq<string>)
    requires |selection| > 0
    ensures var target := !IsAllowedRecord(t, selection[0]);
      (forall k :: k in t && k in selection ==> Space(t, selection)[k] == Flags(target, target))
      && (forall k :: k in t && k !in selection ==> Space(t, selection)[k] == t[k])
  {
  }

  /** Pressing space twice on a selection whose first row is a known key sets
      every selected row back to that row's original record flag. */
  lemma SpaceTwice(t: Table, selection: seq<string>)
    requires |selection| > 0 && selection[0] in t && selection[0] != "None" && selection[0] != ""
    ensures forall k :: k in t && k in selection ==>
      Space(Space(t, selection), selection)[k] == Flags(t[selection[0]].record, t[selection[0]].record)
  {
    var target := !t[selection[0]].record;
    assert Space(t, selection)[selection[0]] == Flags(target, target);
  }

  /** The flag a context-menu entry sets on the selected rows. */
  datatype FlagColumn = RecFlag | PlayFlag

  /** `_set_selection`: for each selected key in turn, the chosen flag is set to
      `enabled` and the other keeps what the lookup answers for it. */
  function SetSelection(t: Table, selection: seq<string>, col: FlagColumn, enabled: bool): (r: Table)
    ensures r.Keys == t.Keys
    ensures forall k :: k in t && k !in selection ==> r[k] == t[k]
  {
    if |selection| == 0 then t
    else
      var k := selection[0];
      var rec, play := IsAllowedRecord(t, k), IsAllowedPlayback(t, k);
      var t1 := if col == RecFlag then UpdateShortcut(t, k, enabled, play)
                else UpdateShortcut(t, k, rec, enabled);
      SetSelection(t1, selection[1..], col, enabled)
  }

  /** Every selected known key gets the chosen flag and keeps the other one,
      even when the selection names it twice. */
  lemma {:induction false} SetSelectionEffect(t: Table, selection: seq<string>, col: FlagColumn, enabled: bool, k: string)
    requires k in t && k in selection && k != "None" && k != ""
    ensures col == RecFlag ==> SetSelection(t, selection, col, enabled)[k] == Flags(enabled, t[k].play)
    ensures col == PlayFlag ==> SetSelection(t, selection, col, enabled)[k] == Flags(t[k].record, enabled)
    decreases |selection|
  {
    var k0 := selection[0];
    var rec, play := IsAllowedRecord(t, k0), IsAllowedPlayback(t, k0);
    var t1 := if col == RecFlag then UpdateShortcut(t, k0, enabled, play)
              else UpdateShortcut(t, k0, rec, enabled);
    assert SetSelection(t, selection, col, enabled) == SetSelection(t1, selection[1..], col, enabled);
    assert k in t1 && t1[k].record == (if k == k0 && col == RecFlag then enabled else t[k].record);
    assert t1[k].play == (if k == k0 && col == PlayFlag then enabled else t[k].play);
    if k in selection[1..] {
      SetSelectionEffect(t1, selection[1..], col, enabled, k);
    } else {
      assert k == k0;
    }
  }

  /** The keys of the rows shown. */
  function RowKeys(rows: seq<Row>): (ks: seq<string>)
    ensures |ks| == |rows| && forall i :: 0 <= i < |rows| ==> ks[i] == rows[i].entry.key
  {
    if |rows| == 0 then [] else [rows[0].entry.key] + RowKeys(rows[1..])
  }

  /** `_set_all_visible`: both flags of every row shown set to `enabled`. */
  function SetAllVisible(t: Table, entries: seq<Entry>, f: Filter, selected: seq<string>, enabled: bool): (r: Table)
    ensures r.Keys == t.Keys
  {
    UpdateAll(t, RowKeys(Refresh(entries, f, selected)), enabled)
  }

  /** A known key of a visible entry gets both flags set; a key that no visible
      entry has is left alone. */
  lemma SetAllVisibleEffect(t: Table, entries: seq<Entry>, f: Filter, selected: seq<string>, enabled: bool, k: string)
    requires k in t
    ensures (exists e :: e in entries && Visible(f, e) && e.key == k) ==>
      SetAllVisible(t, entries, f, selected, enabled)[k] == Flags(enabled, enabled)
    ensures (forall e :: e in entries && e.key == k ==> !Visible(f, e)) ==>
      SetAllVisible(t, entries, f, selected, enabled)[k] == t[k]
  {
    var rows := Refresh(entries, f, selected);
    var ks := RowKeys(rows);
    if e :| e in entries && Visible(f, e) && e.key == k {
      RefreshComplete(entries, f, selected, e);
      var i :| 0 <= i < |rows| && rows[i].entry == e;
      assert ks[i] == k;
    }
    if forall e :: e in entries && e.key == k ==> !Visible(f, e) {
      RefreshRows(entries, f, selected);
      forall i | 0 <= i < |ks|
        ensures ks[i] != k
      {
        assert RowShows(rows[i], entries, f, selected);
      }
    }
  }
}
