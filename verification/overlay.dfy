/** The subtitle layer (overlay_utils.py): canonical key names, the display
    text of one sampled input state, hex colours, and the stacking history that
    decides which texts are shown and for how long. Drawing is not modelled. */
module Overlay {
  import opened Text
  import opened Numbers
  import opened Optional

  // ---------------------------------------------------------------- key names

  /** Tk keysyms renamed to the names the recorder writes. */
  const TkKeyMap: map<string, string> := map[
    "Return" := "Enter", "BackSpace" := "BS", "Escape" := "Esc", "space" := "Space",
    "Delete" := "Del", "Prior" := "PageUp", "Next" := "PageDown",
    "Control_L" := "Ctrl", "Control_R" := "Ctrl",
    "Shift_L" := "Shift", "Shift_R" := "Shift",
    "Alt_L" := "Alt", "Alt_R" := "Alt",
    "Win_L" := "Win", "Win_R" := "Win",
    "Meta_L" := "Win", "Meta_R" := "Win",
    "Super_L" := "Win", "Super_R" := "Win"
  ]

  predicate IsSingleLetter(k: string) {
    |k| == 1 && IsAsciiLetter(k[0])
  }

  /** `convert_tk_event_to_key_name`. */
  function ConvertTkKey(keysym: string): (name: string)
    ensures keysym in TkKeyMap ==> name == TkKeyMap[keysym]
    ensures IsSingleLetter(keysym) ==> name == [UpperChar(keysym[0])]
    ensures keysym !in TkKeyMap && !IsSingleLetter(keysym) ==> name == keysym
  {
    if keysym in TkKeyMap then TkKeyMap[keysym]
    else if IsSingleLetter(keysym) then [UpperChar(keysym[0])]
    else keysym
  }

  /** Left and right variants of every modifier give one canonical name. */
  lemma ConvertSidesAgree()
    ensures ConvertTkKey("Control_L") == ConvertTkKey("Control_R") == "Ctrl"
    ensures ConvertTkKey("Shift_L") == ConvertTkKey("Shift_R") == "Shift"
    ensures ConvertTkKey("Alt_L") == ConvertTkKey("Alt_R") == "Alt"
    ensures ConvertTkKey("Win_L") == ConvertTkKey("Win_R") == "Win"
    ensures ConvertTkKey("Meta_L") == ConvertTkKey("Meta_R") == "Win"
    ensures ConvertTkKey("Super_L") == ConvertTkKey("Super_R") == "Win"
  {
  }

  /** Converting twice changes nothing more: canonical names are fixed points. */
  lemma ConvertIdempotent(keysym: string)
    ensures ConvertTkKey(ConvertTkKey(keysym)) == ConvertTkKey(keysym)
  {
    var n := ConvertTkKey(keysym);
    if keysym in TkKeyMap {
      RenamedNotKey(keysym);
    } else if IsSingleLetter(keysym) {
      assert |n| == 1 && n !in TkKeyMap;
    }
  }

  /** No renamed key is itself renamed again. */
  lemma RenamedNotKey(keysym: string)
    requires keysym in TkKeyMap
    ensures TkKeyMap[keysym] !in TkKeyMap
  {
    var n := TkKeyMap[keysym];
    assert n in {"Enter", "BS", "Esc", "Space", "Del", "PageUp", "PageDown", "Ctrl", "Shift", "Alt", "Win"};
  }

  // ---------------------------------------------------------------- display text

  const ModifierOrder: seq<string> := ["Ctrl", "Shift", "Alt", "Win"]

  /** A single letter is shown upper-case; any other name as it is. */
  function UpperIfLetter(k: string): (r: string)
    ensures |r| == |k|
    ensures Label(k) ==> Label(r)
  {
    if IsSingleLetter(k) then [UpperChar(k[0])] else k
  }

  /** The non-empty stripped comma-separated names of the keys column. */
  function StrippedNames(parts: seq<string>): (r: seq<string>)
    ensures |r| <= |parts|
    ensures forall i :: 0 <= i < |r| ==> |r[i]| > 0 && NoSpaceAtEnds(r[i])
  {
    if |parts| == 0 then [] else StrippedName(parts[0]) + StrippedNames(parts[1..])
  }

  /** `[k.strip()] if k.strip() else []` */
  function StrippedName(k: string): (r: seq<string>)
    ensures |r| <= 1 && forall i :: 0 <= i < |r| ==> |r[i]| > 0 && NoSpaceAtEnds(r[i])
  {
    var t := Strip(k);
    if |t| > 0 then [t] else []
  }

  function KeyList(keys: string): (kl: seq<string>)
    ensures forall i :: 0 <= i < |kl| ==> |kl[i]| > 0 && NoSpaceAtEnds(kl[i])
  {
    if keys != "" && keys != "None" then StrippedNames(Split(keys, ',')) else []
  }

  /** The modifiers present, once each, in the order Ctrl, Shift, Alt, Win. */
  function ModifiersFound(kl: seq<string>): (r: seq<string>)
    ensures forall m :: m in r <==> m in ModifierOrder && m in kl
    ensures forall i, j :: 0 <= i < j < |r| ==> r[i] != r[j]
    ensures Ranked(ModifierOrder, r)
    ensures forall i :: 0 <= i < |r| ==> Label(r[i])
  {
    assert Distinct(ModifierOrder);
    ModifierLabels();
    var r := Listed(ModifierOrder, kl);
    ListedRanked(ModifierOrder, kl);
    assert forall i :: 0 <= i < |r| ==> r[i] in r && r[i] in ModifierOrder;
    r
  }

  predicate Distinct(s: seq<string>) {
    forall i, j :: 0 <= i < j < |s| ==> s[i] != s[j]
  }

  /** The position of m in `order`, |order| when absent. */
  function Rank(order: seq<string>, m: string): (k: nat)
    ensures k <= |order|
    ensures k < |order| <==> m in order
    ensures k < |order| ==> order[k] == m
  {
    if |order| == 0 then 0 else if order[0] == m then 0 else 1 + Rank(order[1..], m)
  }

  lemma ModifierLabels()
    ensures forall m :: m in ModifierOrder ==> Label(m)
  {
    assert Label("Ctrl") && Label("Shift") && Label("Alt") && Label("Win");
  }

  /** The names of `order` that occur in kl, in the order of `order`: with no
      repeats in `order`, each name once and ranked strictly increasing. */
  function Listed(order: seq<string>, kl: seq<string>): (r: seq<string>)
    ensures forall m :: m in r <==> m in order && m in kl
    ensures Distinct(order) ==> Distinct(r)
  {
    if |order| == 0 then []
    else
      var rest := Listed(order[1..], kl);
      assert forall m :: m in order <==> m == order[0] || m in order[1..];
      if order[0] in kl then [order[0]] + rest else rest
  }

  /** The names of r appear in `order` in the same order. */
  predicate Ranked(order: seq<string>, r: seq<string>) {
    forall i, j :: 0 <= i < j < |r| ==> Rank(order, r[i]) < Rank(order, r[j])
  }

  /** With no repeats in `order`, the listed names keep the order of `order`. */
  lemma {:induction false} ListedRanked(order: seq<string>, kl: seq<string>)
    requires Distinct(order)
    ensures Ranked(order, Listed(order, kl))
  {
    if |order| > 0 {
      var tail := order[1..];
      var rest := Listed(tail, kl);
      assert Distinct(tail);
      ListedRanked(tail, kl);
      assert order[0] !in tail by {
        forall k | 0 <= k < |tail| ensures tail[k] != order[0] {
          assert tail[k] == order[k + 1];
        }
      }
      forall i | 0 <= i < |rest|
        ensures Rank(order, rest[i]) == 1 + Rank(tail, rest[i])
      {
        assert rest[i] in rest;
      }
      var r := Listed(order, kl);
      if order[0] in kl {
        assert r == [order[0]] + rest;
        forall i, j | 0 <= i < j < |r|
          ensures Rank(order, r[i]) < Rank(order, r[j])
        {
          assert r[j] == rest[j - 1];
          if i > 0 { assert r[i] == rest[i - 1]; }
        }
      } else {
        assert r == rest;
      }
    }
  }

  /** The other keys, in input order, duplicates kept, single letters upper-cased. */
  function OthersFound(kl: seq<string>): (r: seq<string>)
    ensures |r| <= |kl|
    ensures forall i :: 0 <= i < |r| ==> r[i] !in ModifierOrder
    ensures (forall i :: 0 <= i < |kl| ==> |kl[i]| > 0) ==> forall i :: 0 <= i < |r| ==> |r[i]| > 0
    ensures (forall i :: 0 <= i < |kl| ==> Label(kl[i])) ==> forall i :: 0 <= i < |r| ==> Label(r[i])
  {
    if |kl| == 0 then []
    else
      var rest := OthersFound(kl[1..]);
      if kl[0] in ModifierOrder then rest else [UpperIfLetter(kl[0])] + rest
  }

  /** One key contributes nothing when it is a modifier and its shown name
      otherwise. */
  lemma OthersFoundOne(k: string)
    ensures OthersFound([k]) == if k in ModifierOrder then [] else [UpperIfLetter(k)]
  {
    assert [k][1..] == [];
  }

  /** The other keys of a concatenation are those of each half, one after the
      other: with `OthersFoundOne` this fixes the result as the shown names of
      the non-modifier keys in input order, duplicates kept. */
  lemma {:induction false} OthersFoundAppend(a: seq<string>, b: seq<string>)
    ensures OthersFound(a + b) == OthersFound(a) + OthersFound(b)
  {
    if |a| > 0 {
      assert (a + b)[0] == a[0] && (a + b)[1..] == a[1..] + b;
      OthersFoundAppend(a[1..], b);
    } else {
      assert a + b == b;
    }
  }

  /** A part of the display text: non-empty, no whitespace at either end and no
      `+`, so it survives splitting the text on `+` and stripping. */
  predicate Label(p: string) {
    |p| > 0 && NoSpaceAtEnds(p) && '+' !in p
  }

  const LeftClick := "左クリック"
  const RightClick := "右クリック"
  const MiddleClick := "中クリック"

  /** Mouse labels in the fixed order left, right, middle. */
  function MouseFound(click: string): (r: seq<string>)
    ensures |r| == 0 <==> click == "" || click == "None" || ('L' !in click && 'R' !in click && 'M' !in click)
    ensures forall i :: 0 <= i < |r| ==> Label(r[i])
  {
    if click != "" && click != "None" then
      (if 'L' in click then [LeftClick] else []) + (if 'R' in click then [RightClick] else [])
      + (if 'M' in click then [MiddleClick] else [])
    else []
  }

  /** `get_input_display_text`: modifiers, then mouse labels, then other keys,
      joined by `" + "`; empty unless a button or a non-modifier key is present. */
  function InputDisplayText(click: string, keys: string): (text: string)
    ensures text == "" <==> |MouseFound(click)| == 0 && |OthersFound(KeyList(keys))| == 0
  {
    var kl := KeyList(keys);
    var mods := ModifiersFound(kl);
    var mouse := MouseFound(click);
    var others := OthersFound(kl);
    var parts := mods + mouse + others;
    if |parts| > 0 && (|mouse| > 0 || |others| > 0) then
      PartsHead(mods, mouse, others);
      JoinNonEmpty(" + ", parts);
      Join(" + ", parts)
    else ""
  }

  /** Reading a display text back: split on `+` and strip each piece. */
  function ReadParts(text: string): (parts: seq<string>)
    ensures |parts| == |Split(text, '+')|
    ensures forall i :: 0 <= i < |parts| ==> parts[i] == Strip(Split(text, '+')[i])
  {
    var pieces := Split(text, '+');
    seq(|pieces|, i requires 0 <= i < |pieces| => Strip(pieces[i]))
  }

  /** The display text reads back as the modifiers, the mouse labels and the
      other keys it was built from, in that order, as long as no key name holds
      a `+`. */
  lemma DisplayTextReads(click: string, keys: string)
    requires forall i :: 0 <= i < |KeyList(keys)| ==> '+' !in KeyList(keys)[i]
    ensures var kl := KeyList(keys);
      InputDisplayText(click, keys) != "" ==>
        ReadParts(InputDisplayText(click, keys)) == ModifiersFound(kl) + MouseFound(click) + OthersFound(kl)
  {
    var kl := KeyList(keys);
    var parts := ModifiersFound(kl) + MouseFound(click) + OthersFound(kl);
    if InputDisplayText(click, keys) != "" {
      assert forall i :: 0 <= i < |kl| ==> Label(kl[i]);
      assert forall i :: 0 <= i < |parts| ==> Label(parts[i]);
      ReadJoinedLabels(parts);
    }
  }

  /** Labels joined by `" + "` read back as themselves. */
  lemma ReadJoinedLabels(parts: seq<string>)
    requires |parts| >= 1 && forall i :: 0 <= i < |parts| ==> Label(parts[i])
    ensures ReadParts(Join(" + ", parts)) == parts
  {
    var padded := Padded(parts, false);
    JoinPadded(parts, false);
    assert "" + Join(" + ", parts) == Join(" + ", parts);
    PaddedPieces(parts, false);
    assert "+" == ['+'];
    SplitJoin(padded, '+');
    assert Split(Join(" + ", parts), '+') == padded;
  }

  /** Each padded piece is free of `+` and strips back to its label. */
  lemma PaddedPieces(parts: seq<string>, lead: bool)
    requires forall i :: 0 <= i < |parts| ==> Label(parts[i])
    ensures var padded := Padded(parts, lead);
      forall k :: 0 <= k < |padded| ==> '+' !in padded[k] && Strip(padded[k]) == parts[k]
  {
    var padded := Padded(parts, lead);
    forall k | 0 <= k < |padded| ensures '+' !in padded[k] && Strip(padded[k]) == parts[k] {
      StripPad(parts[k]);
      StripNoop(parts[k]);
    }
  }

  /** The pieces between the `+` signs of a display text: each label with the
      spaces of the separators around it. */
  function Padded(parts: seq<string>, lead: bool): (r: seq<string>)
    ensures |r| == |parts|
    ensures forall i :: 0 <= i < |r| ==>
      r[i] == parts[i] || r[i] == " " + parts[i] || r[i] == parts[i] + " " || r[i] == " " + parts[i] + " "
  {
    if |parts| == 0 then []
    else
      var front := if lead then " " else "";
      if |parts| == 1 then [front + parts[0]]
      else [front + parts[0] + " "] + Padded(parts[1..], true)
  }

  lemma {:induction false} JoinPadded(parts: seq<string>, lead: bool)
    requires |parts| >= 1
    ensures Join("+", Padded(parts, lead)) == (if lead then " " else "") + Join(" + ", parts)
  {
    var front := if lead then " " else "";
    if |parts| > 1 {
      var rest := Padded(parts[1..], true);
      JoinPadded(parts[1..], true);
      assert Padded(parts, lead) == [front + parts[0] + " "] + rest;
      assert ([front + parts[0] + " "] + rest)[1..] == rest;
      calc {
        Join("+", Padded(parts, lead));
        (front + parts[0] + " ") + "+" + Join("+", rest);
        (front + parts[0] + " ") + "+" + (" " + Join(" + ", parts[1..]));
        front + (parts[0] + " + " + Join(" + ", parts[1..]));
      }
    }
  }

  /** Stripping undoes the padding of a label. */
  lemma StripPad(p: string)
    requires Label(p)
    ensures Strip(" " + p) == p && Strip(p + " ") == p && Strip(" " + p + " ") == p
    ensures '+' !in " " + p && '+' !in p + " " && '+' !in " " + p + " "
  {
    assert (" " + p)[1..] == p;
    assert (" " + p + " ")[1..] == p + " ";
    assert (p + " ")[..|p|] == p;
    StripRightPad(p);
    assert StripLeft(p + " ") == p + " ";
    assert StripLeft(" " + p + " ") == p + " ";
    assert StripLeft(" " + p) == p;
  }

  lemma StripRightPad(p: string)
    requires Label(p)
    ensures StripRight(p + " ") == p && StripRight(p) == p
  {
    assert (p + " ")[..|p|] == p;
  }

  lemma PartsHead(mods: seq<string>, mouse: seq<string>, others: seq<string>)
    requires forall i :: 0 <= i < |mods| ==> |mods[i]| > 0
    requires forall i :: 0 <= i < |mouse| ==> |mouse[i]| > 0
    requires forall i :: 0 <= i < |others| ==> |others[i]| > 0
    requires |mouse| > 0 || |others| > 0
    ensures |mods + mouse + others| > 0 && |(mods + mouse + others)[0]| > 0
  {
    var parts := mods + mouse + others;
    if |mods| > 0 { assert parts[0] == mods[0]; }
    else if |mouse| > 0 { assert parts[0] == mouse[0]; }
    else { assert parts[0] == others[0]; }
  }

  lemma JoinNonEmpty(sep: string, parts: seq<string>)
    requires |parts| > 0 && |parts[0]| > 0
    ensures Join(sep, parts) != ""
  {
    if |parts| > 1 {
      assert |Join(sep, parts)| >= |parts[0]|;
    }
  }

  // ---------------------------------------------------------------- colours

  function HexDigitVal(c: char): Option<nat> {
    if '0' <= c <= '9' then Some(c as int - '0' as int)
    else if 'a' <= c <= 'f' then Some(c as int - 'a' as int + 10)
    else if 'A' <= c <= 'F' then Some(c as int - 'A' as int + 10)
    else None
  }

  predicate AllHex(s: string) {
    forall i :: 0 <= i < |s| ==> HexDigitVal(s[i]).Some?
  }

  function HexValue(s: string): nat
    requires AllHex(s)
  {
    if |s| == 0 then 0 else 16 * HexValue(s[..|s| - 1]) + HexDigitVal(s[|s| - 1]).value
  }

  /** `int(s, 16)` on the short chunks the colour parser cuts: surrounding
      whitespace, an optional sign, then hex digits. */
  function ParseHex(s: string): (r: Option<int>)
  {
    var t := Strip(s);
    if |t| > 0 && (t[0] == '+' || t[0] == '-') then
      var d := t[1..];
      if |d| > 0 && AllHex(d) then Some(if t[0] == '-' then -(HexValue(d) as int) else HexValue(d) as int)
      else None
    else if |t| > 0 && AllHex(t) then Some(HexValue(t) as int)
    else None
  }

  /** `str.lstrip('#')` */
  function StripHashes(s: string): (r: string)
    ensures |r| <= |s| && r == s[|s| - |r|..]
    ensures |r| == 0 || r[0] != '#'
  {
    if |s| > 0 && s[0] == '#' then StripHashes(s[1..]) else s
  }

  function Rgba3(r: Option<int>, g: Option<int>, b: Option<int>, alpha: int): (int, int, int, int) {
    if r.Some? && g.Some? && b.Some? then (r.value, g.value, b.value, alpha) else (0, 0, 0, alpha)
  }

  /** `_hex_to_rgba`: empty gives transparent black; `#rrggbb` and `#rgb` (each
      nibble doubled) are parsed; any other length or a bad digit gives black
      with the requested alpha. */
  function HexToRgba(hex: string, alpha: int): (c: (int, int, int, int))
    ensures hex == "" ==> c == (0, 0, 0, 0)
    ensures hex != "" ==> c.3 == alpha
    ensures hex != "" && |StripHashes(hex)| != 3 && |StripHashes(hex)| != 6 ==> c == (0, 0, 0, alpha)
    ensures hex != "" && !AllHexish(StripHashes(hex)) ==> c == (0, 0, 0, alpha)
  {
    if hex == "" then (0, 0, 0, 0)
    else
      var h := StripHashes(hex);
      if |h| == 6 then
        SixWithBadChar(h);
        Rgba3(ParseHex(h[0..2]), ParseHex(h[2..4]), ParseHex(h[4..6]), alpha)
      else if |h| == 3 then
        ThreeWithBadChar(h);
        Rgba3(ParseHex([h[0], h[0]]), ParseHex([h[1], h[1]]), ParseHex([h[2], h[2]]), alpha)
      else (0, 0, 0, alpha)
  }

  /** A character `int(s, 16)` can accept somewhere in a chunk: a hex digit, a
      sign or whitespace. */
  predicate Hexish(c: char) {
    HexDigitVal(c).Some? || c == '+' || c == '-' || IsSpace(c)
  }

  predicate AllHexish(s: string) {
    forall i :: 0 <= i < |s| ==> Hexish(s[i])
  }

  /** In `rrggbb` a bad character spoils the chunk it falls in. */
  lemma SixWithBadChar(h: string)
    requires |h| == 6
    ensures !AllHexish(h) ==>
      ParseHex(h[0..2]).None? || ParseHex(h[2..4]).None? || ParseHex(h[4..6]).None?
  {
    if !AllHexish(h) {
      var i :| 0 <= i < 6 && !Hexish(h[i]);
      assert h[0..2] == [h[0], h[1]] && h[2..4] == [h[2], h[3]] && h[4..6] == [h[4], h[5]];
      if i < 2 { PairWithBadChar(h[0], h[1]); }
      else if i < 4 { PairWithBadChar(h[2], h[3]); }
      else { PairWithBadChar(h[4], h[5]); }
    }
  }

  /** In `rgb` a bad character spoils its doubled chunk. */
  lemma ThreeWithBadChar(h: string)
    requires |h| == 3
    ensures !AllHexish(h) ==>
      ParseHex([h[0], h[0]]).None? || ParseHex([h[1], h[1]]).None? || ParseHex([h[2], h[2]]).None?
  {
    if !AllHexish(h) {
      var i :| 0 <= i < 3 && !Hexish(h[i]);
      if i == 0 { PairWithBadChar(h[0], h[0]); }
      else if i == 1 { PairWithBadChar(h[1], h[1]); }
      else { PairWithBadChar(h[2], h[2]); }
    }
  }

  /** A two-character chunk holding any other character does not read. */
  lemma PairWithBadChar(x: char, y: char)
    requires !Hexish(x) || !Hexish(y)
    ensures ParseHex([x, y]).None?
  {
    var s := [x, y];
    if !IsSpace(x) && !IsSpace(y) {
      StripNoop(s);
      assert s[1..] == [y];
    } else if IsSpace(x) {
      assert s[1..] == [y];
      assert StripLeft(s) == [y];
      assert StripRight([y]) == [y];
    } else {
      assert StripLeft(s) == s;
      assert s[..1] == [x];
      assert StripRight(s) == [x];
    }
  }

  function HexDigitChar(d: nat): (c: char)
    requires d < 16
    ensures HexDigitVal(c) == Some(d)
  {
    if d < 10 then ('0' as int + d) as char else ('a' as int + d - 10) as char
  }

  /** Two lower-case hex digits of a byte. */
  function HexByte(n: nat): (s: string)
    requires n < 256
    ensures |s| == 2 && AllHex(s) && HexValue(s) == n
  {
    var s := [HexDigitChar(n / 16), HexDigitChar(n % 16)];
    assert s[..1] == [s[0]] && s[..1][..0] == [];
    assert HexValue(s[..1]) == n / 16;
    s
  }

  /** A hex byte reads back as itself. */
  lemma ParseHexByte(n: nat)
    requires n < 256
    ensures ParseHex(HexByte(n)) == Some(n)
  {
    var s := HexByte(n);
    assert !IsSpace(s[0]) && !IsSpace(s[1]);
    StripNoop(s);
  }

  /** `#rrggbb` written from three bytes parses back to those bytes. */
  lemma HexRoundTrip(r: nat, g: nat, b: nat, alpha: int)
    requires r < 256 && g < 256 && b < 256
    ensures HexToRgba("#" + HexByte(r) + HexByte(g) + HexByte(b), alpha) == (r, g, b, alpha)
  {
    var body := HexByte(r) + HexByte(g) + HexByte(b);
    assert "#" + HexByte(r) + HexByte(g) + HexByte(b) == "#" + body;
    assert body[0..2] == HexByte(r) && body[2..4] == HexByte(g) && body[4..6] == HexByte(b);
    ParseHexByte(r);
    ParseHexByte(g);
    ParseHexByte(b);
    assert HexDigitVal(body[0]).Some?;
    HexSix(body, alpha);
  }

  /** Six characters after a `#` are read as three two-character chunks. */
  lemma HexSix(body: string, alpha: int)
    requires |body| == 6 && body[0] != '#'
    ensures HexToRgba("#" + body, alpha) ==
      Rgba3(ParseHex(body[0..2]), ParseHex(body[2..4]), ParseHex(body[4..6]), alpha)
  {
    var hex := "#" + body;
    assert hex[1..] == body;
    assert StripHashes(hex) == StripHashes(body) == body;
  }

  /** `#rgb` means exactly `#rrggbb`. */
  lemma ShortHexExpands(a: char, b: char, c: char, alpha: int)
    requires a != '#'
    ensures HexToRgba("#" + [a, b, c], alpha) == HexToRgba("#" + [a, a, b, b, c, c], alpha)
  {
    var s3, s6 := "#" + [a, b, c], "#" + [a, a, b, b, c, c];
    assert s3[1..] == [a, b, c] && s6[1..] == [a, a, b, b, c, c];
    assert StripHashes(s3) == [a, b, c];
    assert StripHashes(s6) == [a, a, b, b, c, c];
    var h := [a, a, b, b, c, c];
    assert h[0..2] == [a, a] && h[2..4] == [b, b] && h[4..6] == [c, c];
  }

  // ---------------------------------------------------------------- stacking history

  /** `InputHistoryManager`: (text, timestamp) entries oldest first, the text
      currently held (None after a release) and when it was last seen. */
  datatype History = History(entries: seq<(string, real)>, lastText: Option<string>, lastTime: real)

  const EmptyHistory := History([], None, -1.0)

  /** Entries younger than ten seconds at `now`, in their order. */
  function Recent(entries: seq<(string, real)>, now: real): (r: seq<(string, real)>)
    ensures |r| <= |entries|
    ensures forall e :: e in r <==> e in entries && now - e.1 < 10.0
  {
    if |entries| == 0 then []
    else (if now - entries[0].1 < 10.0 then [entries[0]] else []) + Recent(entries[1..], now)
  }

  /** `update`: an empty text is a release; the held text is not added again;
      a new text is appended, and only the last ten seconds are kept. */
  function Update(h: History, now: real, text: string): (h': History)
    ensures text == "" ==> h'.entries == h.entries && h'.lastText == None
    ensures text != "" && h.lastText == Some(text) ==> h'.entries == h.entries && h'.lastTime == now
    ensures text != "" ==> h'.lastText == Some(text) && h'.lastTime == now
    ensures text != "" && h.lastText != Some(text) ==>
      h'.entries == Recent(h.entries + [(text, now)], now) && (text, now) in h'.entries
  {
    if text == "" then h.(lastText := None)
    else if h.lastText == Some(text) then h.(lastTime := now)
    else History(Recent(h.entries + [(text, now)], now), Some(text), now)
  }

  /** Holding one combination over many frames adds it once. */
  lemma HeldOnce(h: History, t1: real, t2: real, text: string)
    requires text != ""
    ensures Update(Update(h, t1, text), t2, text).entries == Update(h, t1, text).entries
  {
  }

  /** Press, release and press again of one combination adds it twice. */
  lemma PressReleasePress(h: History, t1: real, t2: real, t3: real, text: string)
    requires text != "" && h.lastText != Some(text) && t1 <= t3 < t1 + 10.0
    ensures var h3 := Update(Update(Update(h, t1, text), t2, ""), t3, text);
      (text, t1) in h3.entries && (text, t3) in h3.entries
  {
    var h1 := Update(h, t1, text);
    assert (text, t1) in h1.entries;
    var h2 := Update(h1, t2, "");
    assert (text, t1) in h2.entries + [(text, t3)];
  }

  /** `get_active_inputs`: (text, age) newest first, only ages within the fade window. */
  function ActiveInputs(entries: seq<(string, real)>, now: real, fade: real): (r: seq<(string, real)>)
    ensures |r| <= |entries|
    ensures forall i :: 0 <= i < |r| ==> 0.0 <= r[i].1 <= fade
    ensures forall i :: 0 <= i < |r| ==> exists j :: 0 <= j < |entries| && r[i] == (entries[j].0, now - entries[j].1)
  {
    if |entries| == 0 then []
    else
      var e := entries[|entries| - 1];
      var age := now - e.1;
      var init := entries[..|entries| - 1];
      assert forall j :: 0 <= j < |init| ==> init[j] == entries[j];
      (if 0.0 <= age <= fade then [(e.0, age)] else []) + ActiveInputs(init, now, fade)
  }

  /** An entry added later is listed before everything already there. */
  lemma ActiveNewestFirst(entries: seq<(string, real)>, e: (string, real), now: real, fade: real)
    requires 0.0 <= now - e.1 <= fade
    ensures ActiveInputs(entries + [e], now, fade) == [(e.0, now - e.1)] + ActiveInputs(entries, now, fade)
  {
    assert (entries + [e])[..|entries|] == entries;
  }

  /** An entry is shown exactly when its age lies in the fade window. */
  lemma {:induction false} ActiveMembers(entries: seq<(string, real)>, now: real, fade: real, text: string, t: real)
    ensures (text, t) in entries && 0.0 <= now - t <= fade ==> (text, now - t) in ActiveInputs(entries, now, fade)
  {
    if |entries| > 0 {
      var init := entries[..|entries| - 1];
      assert entries == init + [entries[|entries| - 1]];
      ActiveMembers(init, now, fade, text, t);
      if (text, t) in entries && (text, t) !in init {
        assert entries[|entries| - 1] == (text, t);
      }
    }
  }

  /** Pruning after an append keeps the new entry last when it is recent. */
  lemma {:induction false} RecentAppend(entries: seq<(string, real)>, e: (string, real), now: real)
    requires now - e.1 < 10.0
    ensures Recent(entries + [e], now) == Recent(entries, now) + [e]
  {
    if |entries| == 0 {
      assert [e][1..] == [];
    } else {
      assert (entries + [e])[1..] == entries[1..] + [e];
      RecentAppend(entries[1..], e, now);
    }
  }

  /** A new combination goes on top of the stack, with age 0, whenever at least
      one line is shown and the fade window is not negative. */
  lemma NewInputOnTop(h: History, now: real, text: string, fade: real, maxStack: int)
    requires text != "" && h.lastText != Some(text) && fade >= 0.0 && maxStack >= 1
    ensures var shown := TakePrefix(ActiveInputs(Update(h, now, text).entries, now, fade), maxStack);
      |shown| > 0 && shown[0] == (text, 0.0)
  {
    var e := (text, now);
    RecentAppend(h.entries, e, now);
    ActiveNewestFirst(Recent(h.entries, now), e, now, fade);
  }

  /** Python's `items[:n]`, where a negative `n` counts from the end. */
  function TakePrefix<T>(items: seq<T>, n: int): (r: seq<T>)
    ensures |r| <= |items| && r == items[..|r|]
    ensures n >= 0 ==> |r| == Min(n, |items|)
    ensures n < 0 ==> |r| == Max(0, |items| + n)
  {
    if n >= 0 then items[..Min(n, |items|)] else items[..Max(0, |items| + n)]
  }

  function Min(a: int, b: int): int { if a <= b then a else b }
  function Max(a: int, b: int): int { if a >= b then a else b }
}
