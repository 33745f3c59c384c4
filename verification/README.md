# ChulipVideo core in Dafny

ChulipVideo is a Windows desktop tool for cutting screen recordings. It trims a
video, crops a rectangle of it, and exports the crop as PNG frames, a GIF or an
MP4. Its companion recorder (CapchunScreen / ChunapTool) captures a window and
can write a TSV file with the mouse position, the pressed buttons and the held
keys for every frame. The editor reads that file back to draw the cursor, click
ripples and a subtitle of the keys pressed.

This project models the logic under the GUI and proves properties of it. There
is one module per source file or concern:

- `CropHandler` (crop.dfy): the crop rectangle clamps, the aspect-locked resize,
  the arrow-key move, and the undo/redo stacks of `CropHandlerMixin`.
- `Editor` (editor.dfy): the editor window's own versions of push, move and
  "rectangle from the entry boxes", and the trim setters.
- `Seekbar` (seekbar.py): the time/pixel mapping, marker grabbing, and dragging
  with frame snapping.
- `Export` (export.py): region clamping, the output-size check, the frame
  selection loop of the PNG export, and the PNG file name.
- `Utils` (src/utils.py): time formatting and parsing, aspect-ratio labels, and
  the padded crop `get_safe_crop`.
- `Numbers` and `Text`: Python's `int()`, `float()`, `round()`, `str()`, format
  padding, `strip`, `split`, `find` and Windows `splitext`, written out over
  strings and unbounded numbers.
- `Config` (config.py): the insertion-ordered dict, preset normalisation, the
  default presets, the global config migration and fill, and the settings path.
- `PresetMenu`: adding a resolution preset and building the filtered, sorted
  resolution menu.
- `Shortcuts` (src/shortcut_manager.py): the catalogue of 1124 key
  combinations, the enable table, its TSV load/save, and application
  definition files.
- `ShortcutDialog` (shortcut_settings_dialog.py): the list filters and the
  flag-changing gestures.
- `Overlay` (overlay_utils.py): key-name conversion, the subtitle text, colour
  parsing, and the input history.
- `Recorder` (recorder_core.py): the input snapshot columns, the capture loop's
  buffer, start/stop, and the TSV file.
- `Trajectory`: reading that TSV back in the editor and choosing what the
  overlay shows at the playhead.
- `MultiPlayer` (src/multi_video_player.py): the synchronised multi-video
  player.
- `WindowTool` (ChunapTool.py): the window geometry clamp into the monitor's
  work area, and the geometry undo history.

Python floats are modelled as exact reals. Integers are unbounded, as Python's
are. Every exception the source catches becomes an `Option` or a fallback
value, as the source does.

The model keeps one behaviour of `clamp_rect_resize` as it is: the left and top
coordinates are never cut from above. A rectangle typed in wholly to the right
of the video therefore comes back with x1 > x2 (`CropHandler.ClampResizeCanInvert`).

## Model

| member | source | states |
|---|---|---|
| CropHandler.CanvasAxis | crop_handler.py:78-111 | one axis of the canvas clamp: the size is the larger of the minimum and the dragged extent; the start is pulled inside the video (or the oversize margin), and a start already legal is kept |
| CropHandler.ClampCanvas | crop_handler.py:78-111 | the result is ordered and at least MinW×MinH, each side the larger of the minimum and the input's extent; it lies inside the video when oversize is off and it fits; with oversize on, the corner stays within the margin |
| CropHandler.CanvasAxisIdempotent | crop_handler.py:78-111 | clamping an already clamped axis returns it unchanged |
| CropHandler.ClampCanvasIdempotent | crop_handler.py:78-111 | clamping twice is clamping once |
| CropHandler.ClampCanvasKeepsValid | crop_handler.py:78-111 | an ordered rectangle of at least minimum size inside the video is returned as it is |
| CropHandler.MoveAxis | crop_handler.py:113-138 | only the start moves; it lands inside the limits whenever the size fits, and a start already legal is kept |
| CropHandler.ClampMove | crop_handler.py:113-138 | the result is exactly w×h, lies inside the video when the size fits, and equals the requested rectangle when that one is already inside |
| CropHandler.ResizeAxis | crop_handler.py:189-231 | with oversize the axis keeps at least the minimum size and a long enough axis is kept; without it both ends lie in the video when the video is at least the minimum size; an axis inside the video and of minimum size is kept |
| CropHandler.ClampResize | crop_handler.py:189-231 | with oversize both sides keep the minimum; without it, on a video of at least minimum size, x1, y1 are not negative and x2, y2 not past the video; a legal rectangle comes back unchanged |
| CropHandler.ClampResizeCanInvert | crop_handler.py:212-229 | x1 = 3000 on a 1920-wide video gives x1 = 3000 and x2 = 1920: the result is inverted |
| CropHandler.AspectFixed | crop_handler.py:167-185 | plain aspect resize for any ratio: with a top or bottom edge the height and the edge opposite the dragged side stay, and the width is within one pixel of height×ratio; with only a side edge the width stays and the height is within one pixel of width/ratio, or, for a zero ratio, nothing is returned (the ZeroDivisionError); with no edge nothing changes |
| CropHandler.CentredTarget | crop_handler.py:147-161 | the Ctrl branch's target keeps the aspect ratio, width = height × ratio, whenever an edge is dragged: the dragged height is kept with a top or bottom edge, the dragged width with only a side edge, and none exactly for a zero ratio with only a side edge (the ZeroDivisionError); with no edge the dragged size is kept; a non-negative ratio gives a non-negative size |
| CropHandler.AspectCentred | crop_handler.py:147-166 | Ctrl aspect resize: none exactly when a zero ratio is divided by; otherwise the centre moves by at most half a pixel on each axis, and each side is within two pixels of the target size |
| CropHandler.AspectResize | crop_handler.py:140-187 | for any ratio: none exactly when only a side edge is dragged and the ratio is 0 (the ZeroDivisionError); without Ctrl the top edge and one side stay put; with Ctrl the centre moves by at most half a pixel on each axis |
| CropHandler.OrigRatio | src/ChulipVideo.py:2521-2524 | width over height for a positive height, 1.0 otherwise; 0 exactly for a zero-width rectangle of positive height |
| CropHandler.ZeroWidthSideDragRaises | src/ChulipVideo.py:2521-2524 | a zero-width rectangle of positive height raises when a side edge alone is then dragged |
| CropHandler.CentredRect | crop_handler.py:157-166 | a rectangle centred on (sx/2, sy/2) with corners truncated toward zero: centre within half a pixel, sides within two pixels of the requested size |
| CropHandler.CentredSpan | crop_handler.py:157-166 | the two truncated ends of a centred span stay within two of the intended sum and length |
| CropHandler.MoveByAxis | crop_handler.py:267-295 | the span keeps its length; it stays in the video when it fits; without pushback (oversize, or the move stays inside) it is the plain translation |
| CropHandler.MoveBy | crop_handler.py:267-295 | the width and height are kept; the result is inside the video when it fits; the exact translation when oversize is on or the moved rectangle is inside |
| CropHandler.Push | crop_handler.py:31-39 | the current rectangle is on top afterwards; a rectangle already on top changes nothing; otherwise the history grows by exactly it and the redo stack is cleared |
| CropHandler.Undo | crop_handler.py:41-49 | on an empty history nothing changes; otherwise the old top becomes current, the history loses its top, and the old current rectangle is pushed on the redo stack |
| CropHandler.Redo | crop_handler.py:51-59 | the mirror of Undo between the redo stack and the history |
| CropHandler.RedoUndo | crop_handler.py:41-59 | redo after undo restores the rectangle and both stacks |
| CropHandler.UndoRedo | crop_handler.py:41-59 | undo after redo restores the rectangle and both stacks |
| CropHandler.UndoConserves | crop_handler.py:41-49 | undo loses and invents no rectangle: the multiset of history, redo stack and current rectangle is preserved |
| CropHandler.RedoConserves | crop_handler.py:51-59 | the same conservation for redo |
| Editor.EditorPush | src/ChulipVideo.py:1248-1258 | the window's push: the rectangle ends on top, the old history is a prefix of at most one entry less, and redo is always cleared |
| Editor.EditorPushVersusMixin | src/ChulipVideo.py:1248-1258 | the window's and the mixin's push build the same history; they agree exactly when the rectangle is really pushed or the redo stack is already empty |
| Editor.EditorPushIdempotent | src/ChulipVideo.py:1248-1258 | pushing twice is pushing once |
| Editor.UndoAfterPush | src/ChulipVideo.py:1260-1271 | undo right after a push restores the rectangle and history, and leaves exactly the pushed rectangle to redo |
| Editor.EditorMoveBy | src/ChulipVideo.py:1692-1710 | with the position lock nothing changes; otherwise the old rectangle is pushed, redo is cleared, and the canvas clamp keeps each side at the larger of the minimum and its old extent |
| Editor.EditorMoveByExact | src/ChulipVideo.py:1692-1710 | a move that stays inside the video, with oversize off and a rectangle of at least minimum size, lands exactly at the translated rectangle |
| Editor.UndoAfterMove | src/ChulipVideo.py:1692-1710 | undo after an unlocked move brings the old rectangle back |
| Editor.EntryValues | src/ChulipVideo.py:1789-1805 | the values are read exactly when every unlocked box reads as an integer; a locked field takes the current value, an unlocked one the number typed |
| Editor.UpdateFromEntries | src/ChulipVideo.py:1789-1821 | nothing changes with both locks on, during a mouse drag, on an unreadable box, or when the typed rectangle equals the current one; any change pushes the old rectangle and clears redo |
| Editor.DisplayedIsNoop | src/ChulipVideo.py:1789-1821 | reading back what the boxes display changes nothing, whatever the locks |
| Editor.TypedRectTaken | src/ChulipVideo.py:1789-1821 | a typed rectangle inside the video and of minimum size becomes the crop, and undo restores the old one |
| Editor.ClampTime | src/ChulipVideo.py:1178-1218 | the clamp lies in [0, duration] and keeps a value already in range |
| Editor.SetStart | src/ChulipVideo.py:1178-1191 | the end and duration stay; the playhead jumps to the new start; a valid trim stays valid and the start is the value nearest to the requested one in [0, end] |
| Editor.SetEnd | src/ChulipVideo.py:1193-1206 | the start and duration stay; the playhead jumps to the new end, the nearest value in [start, duration] |
| Editor.SetCurrent | src/ChulipVideo.py:1208-1218 | only the playhead moves, to the nearest value in [0, duration] |
| Editor.SettersIdempotent | src/ChulipVideo.py:1178-1206 | setting the start, or the end, twice to the same value is setting it once |
| Editor.SetStartWithinRange | src/ChulipVideo.py:1178-1191 | a start in [0, end] is taken exactly, and the end does not move |
| Seekbar.SeekWidth | seekbar.py:34-37 | the width used is always more than one pixel |
| Seekbar.GetX | seekbar.py:30-38 | without a video every time maps to the left margin |
| Seekbar.GetXOnBar | seekbar.py:30-38 | a time inside the video lands between the left margin and the right end of the bar, and the end of the video exactly on the right end |
| Seekbar.GetT | seekbar.py:40-50 | without a video the time is 0; it is undefined exactly when the bar has zero length; otherwise it lies in [0, duration] |
| Seekbar.Clamp01 | seekbar.py:50 | the ratio is clamped into [0, 1] and kept when already there |
| Seekbar.GetTGetX | seekbar.py:30-50 | reading the time back from the pixel column of a time inside the video gives that time |
| Seekbar.Snap | seekbar.py:140-142 | the snapped time is a whole number of frames: its product with the rate (30 for a zero rate) is the rounded product of the raw time |
| Seekbar.SnapHalfFrame | seekbar.py:140-142 | a snapped time is within half a frame of the raw one |
| Seekbar.SnapIdempotent | seekbar.py:140-142 | snapping a snapped time leaves it where it is |
| Seekbar.FrameSnapsToItself | seekbar.py:140-142 | the time of a whole frame snaps to itself |
| Seekbar.FrameTimeRound | seekbar.py:142 | the time of frame n rounds back to frame n |
| Seekbar.HandleDrag | seekbar.py:137-149 | the marker of the drag mode is set, through its setter, to the snapped time under the pointer; the mode, rate, width and duration are kept; a valid trim stays valid; without a mode or a time nothing changes |
| Seekbar.Click | seekbar.py:107-125 | without a video nothing changes; otherwise the start marker is grabbed exactly when it is under 15 pixels away and no farther than the end marker, the end marker exactly when not the start and under 15 pixels away, else the playhead, which jumps to the snapped time; a valid trim stays valid |
| Seekbar.ClickOnMarker | seekbar.py:115-122 | a click on the start marker grabs it; a click on the end marker grabs it when the start marker is 15 or more pixels away |
| Seekbar.ClickElsewhere | seekbar.py:119-125 | a click 15 or more pixels from both markers grabs the playhead and keeps both markers |
| Seekbar.Drag | seekbar.py:127-131 | ignored without a mode or a video; otherwise the marker of the mode is set to the snapped time under the pointer; the mode is kept and a valid trim stays valid |
| Seekbar.DragLands | seekbar.py:127-149 | the snapped time is within half a frame of the pointer's time, and a marker dragged to a legal time lands exactly there with the playhead |
| Seekbar.Release | seekbar.py:133-135 | the mode is cleared and the trim kept |
| Seekbar.DragAfterRelease | seekbar.py:127-135 | a drag after the release changes nothing |
| Export.ClampCoord | export.py:113-116 | the coordinate lies in [0, limit]: 0 below, the limit above, itself in range |
| Export.ClampRegion | export.py:110-116 | every corner lies in the video; a region already inside is kept |
| Export.ClampRegionIdempotent | export.py:110-116 | clamping a clamped region changes nothing |
| Export.ExportSize | export.py:302-316 | the size is positive and fits the video; it exists exactly when the clamped region has positive width and height |
| Export.ExportSizeCases | export.py:302-316 | a region missing the video or drawn right to left is refused; a region inside the video is exported at its own size |
| Export.PrevIsLastReadable | export.py:176-234 | the previous crop is the latest readable crop before the current one, and absent only when none was readable |
| Export.SelectFrames | export.py:176-234 | the written frames are in increasing order, readable and pass the neighbour check; with the duplicate check no two consecutive writes are equal; every readable frame that was skipped failed a check; with no checks exactly the readable frames are written; the count is the number written |
| Export.SelectStep | export.py:184-234 | one frame is written exactly when it is readable, passes the neighbour check and does not repeat the last written crop; the previous crop becomes the last readable one and the last crop the last written one |
| Export.StepKeeps | export.py:199-234 | whether or not the frame is written, the loop's promises (ordered, readable, checked writes; skipped frames failed a check) extend by one frame |
| Export.WriteStep | export.py:226-232 | writing a frame that passes both checks keeps the loop's promises |
| Export.PassStep | export.py:199-234 | passing over a frame that fails a check keeps the loop's promises |
| Export.NoFiltersWritesAll | export.py:199-216 | with both check boxes off the frames written are exactly the readable ones |
| Export.FrameInSecond | export.py:228 | the frame within the second lies in [0, fps) |
| Export.PngNameShape | export.py:227-229 | below 100 hours and 1000 fps the name is the video name, then exactly 15 characters: six digits for the stamp, three for the frame within the second, then `.png` |
| Export.TrimNameStamps | export.py:383-387 | the trim name is the video name, `_trim`, the PNG stamps of both ends with the rate taken as at least 1, and `.mp4` |
| Export.TrimNameShape | export.py:383-387 | below 100 hours and 1000 fps the trim name is the video name, `_trim`, two eleven-character stamps and `.mp4`, 31 characters after the video name |
| Export.StampShape | export.py:227-229 | below 100 hours and 1000 fps the stamp is `_`, six digits spelling the whole seconds, `_` and three digits spelling the frame within the second |
| Utils.FloatMod60 | src/utils.py:62 | Python's float `% 60`: the remainder lies in [0, 60) and differs from x by a whole multiple of 60 |
| Utils.SecToHhmmss | src/utils.py:45-51 | a non-negative time gives at least six digits |
| Utils.HhmmssFields | src/utils.py:45-51 | below 100 hours the stamp is six digits whose hours, minutes and seconds spell the truncated time, with minutes and seconds below 60 |
| Utils.HhmmssOfWhole | src/utils.py:45-51 | truncating the time first gives the same stamp |
| Utils.SecondsField | src/utils.py:62 | the seconds field is the truncated time modulo 60 |
| Utils.MillisField | src/utils.py:63 | the millisecond field lies in [0, 1000) and, with the whole seconds, spells the time truncated to milliseconds |
| Utils.NonEmptyStripped | src/utils.py:74-75 | the pieces kept are non-empty, stripped and no more than the pieces given |
| Utils.DisplayRoundTrip | src/utils.py:54-91 | reading back what `sec_to_display` shows gives the time truncated to whole milliseconds |
| Utils.FieldsRead | src/utils.py:67-91 | `HH:MM:SS.mmm` built from four numbers reads back as their value in seconds |
| Utils.HmsReads | src/utils.py:73-80 | `H:M:S` with readable fields reads as H×3600 + M×60 + S |
| Utils.HhmmssUnreadable | src/utils.py:72-91 | text without a colon that is not a number reads as 0.0, and so does `H:M:S` with unreadable hours |
| Utils.RatioValueOfInts | src/utils.py:110-118 | `p:q` written from two integers reads back as p/q |
| Utils.RatioValueNeedsOneColon | src/utils.py:113-118 | without exactly one colon there is no ratio |
| Utils.Scan | src/utils.py:140-146 | the loop over the candidates keeps the first strictly closest candidate and its distance, and none while none is closer than 1.0 |
| Utils.Nearest | src/utils.py:140-146 | the candidate chosen is at distance below 1.0, no farther than any other, and strictly closer than every earlier one; with none chosen every candidate is 1.0 or more away |
| Utils.RatioLabelRoundTrip | src/utils.py:121-155 | the label of a non-degenerate size reads back as a ratio at most 0.03 away from w/h, and exactly w/h when no common ratio is that close |
| Utils.RatioLabelZeroHeight | src/utils.py:123-126 | a zero height gives the label `?:?` |
| Utils.RatioLabelLowestTerms | src/utils.py:151-155 | away from every common ratio the label is w:h divided by their gcd, a fraction in lowest terms |
| Utils.ReducedRatio | src/utils.py:151-153 | dividing both sides by a common divisor keeps the ratio |
| Utils.GetSafeCrop | src/utils.py:183-221 | a missing image gives none; an empty window gives a 1×1 black image; otherwise the result is (y2-y1)×(x2-x1) and each cell is the image pixel under it, or the background outside the image |
| Utils.SafeCropCells | src/utils.py:197-219 | each cell of the pasted window is the image pixel under it, or the background off the image |
| Numbers.NatToString | src/utils.py:51 | `str(n)` is a digit string with no leading zero whose value is n |
| Numbers.ZeroPad | src/utils.py:51 | zero padding gives exactly `width` characters (more when the number is wider), all digits, valued n |
| Numbers.PadInt | src/utils.py:64 | a padded integer starts with a minus sign exactly when it is negative, and is all digits otherwise |
| Numbers.ParseInt | src/utils.py:77-78 | `int()` reads nothing from blank text, and a negative value only after a minus sign |
| Numbers.ParseIntPadInt | src/utils.py:77-79 | `int()` reads back every zero-padded integer |
| Numbers.ParseFloatPadInt | src/utils.py:79 | `float()` reads back every zero-padded integer as the same value |
| Numbers.FormatMilliRoundTrip | recorder_core.py:162-163 | `float()` of a time rounded to milliseconds, as the recorder writes it, gives back that time |
| Numbers.Trunc | src/utils.py:47 | Python's `int()` of a float truncates toward zero |
| Numbers.RoundHalfEven | seekbar.py:142 | Python's `round()` is within one half, and ties go to the even integer |
| Numbers.Gcd | src/utils.py:152 | `math.gcd` is zero only for two zeros, otherwise divides both, and every common divisor divides it, so it is the greatest |
| Numbers.GcdCofactorsCoprime | src/utils.py:152-153 | dividing two numbers, not both zero, by their gcd leaves two numbers whose gcd is 1 |
| Text.StripLeft | src/utils.py:75 | `lstrip` removes only whitespace and leaves no leading whitespace |
| Text.StripRight | src/utils.py:75 | `rstrip` removes only whitespace and leaves no trailing whitespace |
| Text.Strip | src/utils.py:75 | `strip` leaves an infix of the text with no whitespace at either end |
| Text.Split | src/utils.py:74 | `split` gives at least one piece, none holding the separator, and exactly one when the separator is absent |
| Text.JoinSplit | src/utils.py:74 | joining the pieces of a split gives back the text |
| Text.SplitJoin | src/utils.py:74 | splitting a join gives back the pieces when none holds the separator |
| Text.IndexOf | src/utils.py:113 | `find` returns the first occurrence, or the length when there is none |
| Text.Contains | shortcut_settings_dialog.py:270-290 | the substring test holds exactly when the text occurs |
| Text.LastIndex | src/utils.py:97 | `rfind` returns the last occurrence, or -1 |
| Text.SplitExtRoot | config.py:258 | the root is a prefix of the path; when shorter it ends where a dot starts a last component free of dots and separators, and keeps some ordinary character |
| Text.SplitExtAppend | config.py:258 | appending an extension to a root ending in an ordinary character gives back that root |
| Config.KeyIndex | config.py:306-327 | the first position holding the key, or the length |
| Config.Lookup | config.py:306-327 | `d.get(k)` finds a value exactly when the key is present |
| Config.Put | config.py:312 | `d[k] = v`: the key then maps to v, every other key is unchanged, the keys grow by k, distinct keys stay distinct, and a new key goes at the end |
| Config.PutExisting | config.py:312 | replacing the value of a present key keeps the length and meets Put's promise |
| Config.PutNew | config.py:324 | adding an absent key at the end meets Put's promise |
| Config.Suffixed | config.py:321-323 | `base#n` is the base, a `#` and a non-empty run of digits |
| Config.SuffixedInjective | config.py:321-323 | different numbers give different suffixed keys |
| Config.FirstFree | config.py:319-323 | the smallest n from the start whose `base#n` is free |
| Config.FreshKey | config.py:317-324 | the key settled on is never taken: `base` when free, else `base#n` for the smallest free n ≥ 1 |
| Config.SizeOf | config.py:315 | a size is read exactly when the value has two integer entries |
| Config.LeadingDigits | config.py:311 | the leading run of digits of a key |
| Config.NormalizeStep | config.py:310-326 | a labelled key, or a value that is not a size, is stored as it is; otherwise the entry is appended under the fresh variant of its labelled key |
| Config.Normalize | config.py:306-327 | the result has distinct keys and no more entries than the input |
| Config.NormalizeKeysFrom | config.py:306-327 | every key of the result is an input key or starts with the labelled key of some input entry |
| Config.NormalizeKeeps | config.py:310-312 | with distinct input keys, an entry that already has a label, or has no size, keeps its value under its key |
| Config.NormalizeLabels | config.py:313-324 | an entry that gets a label is stored under the fresh variant of its labelled key, and nothing before it moves |
| Config.DefaultsShape | config.py:20-54 | the 33 default names are pairwise distinct |
| Config.DefaultPresets | config.py:20-54 | 33 entries with distinct keys, each value a readable size |
| Config.LabelForm | src/utils.py:121-155 | a ratio label is `?:?` or two integers around a colon |
| Config.LabelNoSpace | src/utils.py:121-155 | a ratio label holds no space, so the first space of a labelled key ends the label |
| Config.LabelledInjective | config.py:335-337 | different keys give different labelled keys |
| Config.WithLabelsSpec | config.py:330-341 | over distinct keys with sizes: one entry per input entry, in order, with the same value, under the labelled key |
| Config.LabelEntry | config.py:335-340 | the value is kept and the key is labelled when the size reads |
| Config.DefaultsWithLabels | config.py:330-341 | the 33 defaults come back labelled, in order, with the same values |
| Config.Step | config.py:216-219 | one migration: the old key is renamed exactly when present and its new name absent; every other key keeps its presence and value |
| Config.MigrateFrom | config.py:216-219 | keys no remaining step mentions keep their presence and value; with nothing moved the theme is unchanged |
| Config.Migrate | config.py:203-219 | the whole migration keeps every key the table does not name |
| Config.MigrationFirstWins | config.py:203-219 | both old names of the default line colour present: the first one is renamed, the second is kept as it is |
| Config.MigrationKeepsExisting | config.py:216-218 | an old key whose new name exists is left alone, and the new name's value is not overwritten |
| Config.Fill | config.py:221-233 | the keys become the union with the defaults, present values are kept, missing ones take the default, and the flag says whether any was missing |
| Config.LoadGlobal | config.py:185-239 | after loading every theme and top-level default key is present, loaded values are kept, and an empty or corrupt file is always rewritten |
| Config.RewriteIff | config.py:185-239 | the file is rewritten exactly when it was empty or corrupt, a theme key migrated, or a default was filled in |
| Config.CompleteFileUntouched | config.py:185-239 | a complete file with no old theme keys is returned as it is and not rewritten |
| Config.SettingsPath | config.py:268-281 | no path for an empty video path; otherwise the video's root followed by the settings suffix |
| Config.SettingsPathReplacesExtension | config.py:258 | `name.ext` gets `name.settings.json` |
| PresetMenu.AddPreset | src/ChulipVideo.py:1068-1094 | nothing changes on an unreadable box or an empty or cancelled name; otherwise exactly one entry is appended, under a key not yet taken, holding the two numbers read |
| PresetMenu.AddPresetNeverOverwrites | src/ChulipVideo.py:1086-1092 | adding keeps the keys distinct and every existing key's value |
| PresetMenu.AddPresetKey | src/ChulipVideo.py:1081-1091 | the new key is `"<label> <name>"` when free, else that key with `#n` for the smallest free n ≥ 1 |
| PresetMenu.AddPresetStores | src/ChulipVideo.py:1081-1092 | the whole effect: the pair is appended under the fresh key |
| PresetMenu.WordEnd | src/ChulipVideo.py:1052 | the length of the first run of non-whitespace |
| PresetMenu.FirstWord | src/ChulipVideo.py:1052 | `name.split()[0]` is a non-empty word, and missing exactly for a blank name |
| PresetMenu.ItemOf | src/ChulipVideo.py:1043-1061 | an entry gives a candidate exactly when its size reads and its ratio is within the tolerance of the target |
| PresetMenu.Candidates | src/ChulipVideo.py:1042-1061 | every candidate is within the tolerance, and there are no more than presets |
| PresetMenu.CandidatesMembers | src/ChulipVideo.py:1042-1061 | exactly the entries that give a candidate are listed |
| PresetMenu.Insert | src/ChulipVideo.py:1064 | inserting adds exactly x to the multiset |
| PresetMenu.InsertSorted | src/ChulipVideo.py:1064 | inserting into a sorted list keeps it sorted |
| PresetMenu.SortItems | src/ChulipVideo.py:1064 | the sort is a permutation |
| PresetMenu.SortSorted | src/ChulipVideo.py:1064 | the sort orders by ratio, then width, then height |
| PresetMenu.SortStable | src/ChulipVideo.py:1064 | the sort is stable: items with equal keys keep their input order |
| PresetMenu.MenuItems | src/ChulipVideo.py:1032-1064 | the listed presets are sorted, all within the tolerance, and a permutation of the candidates |
| PresetMenu.Menu | src/ChulipVideo.py:1025-1066 | the menu is カスタム, 全画面, then the names of the sorted candidates, in that order |
| PresetMenu.MenuNamesPresets | src/ChulipVideo.py:1025-1066 | a name follows the two fixed entries exactly when some preset whose size reads and whose ratio is within 0.03 of the chosen one has it |
| PresetMenu.MenuMembership | src/ChulipVideo.py:1032-1064 | a preset is listed exactly when its size reads and its ratio is within 0.03 of the chosen one |
| PresetMenu.NoFilterListsAll | src/ChulipVideo.py:1039 | with no ratio chosen every preset whose size reads is listed |
| Shortcuts.Catalogue | src/shortcut_manager.py:14-119 | the catalogue has 1124 entries |
| Shortcuts.CatalogueDistinct | src/shortcut_manager.py:14-119 | the 1124 catalogue keys are pairwise distinct |
| Shortcuts.SplitEntry | src/shortcut_manager.py:14-119 | splitting a catalogue key at `+` gives back the names it was joined from |
| Shortcuts.PartsInjective | src/shortcut_manager.py:14-119 | no two catalogue positions are joined from the same names |
| Shortcuts.ModCombosOrdered | src/shortcut_manager.py:14-119 | every modifier subset lists Ctrl, Shift, Alt, Win in that order, each at most once |
| Shortcuts.EntryIsNotNone | src/shortcut_manager.py:14-119 | "None" and the empty string are no catalogue keys |
| Shortcuts.DefaultEnabled | src/shortcut_manager.py:14-119 | disabled by default are exactly the letters, the digits and the modifiers alone |
| Shortcuts.Store | src/shortcut_manager.py:188-199 | storing entries adds exactly their keys |
| Shortcuts.DefaultsKeys | src/shortcut_manager.py:188-199 | the default table holds exactly the catalogue keys |
| Shortcuts.DefaultsAt | src/shortcut_manager.py:192-199 | each catalogue key's default has both flags equal to its default |
| Shortcuts.ApplyRows | src/shortcut_manager.py:219-234 | applying the rows never adds or removes a key |
| Shortcuts.ApplyRowsUntouched | src/shortcut_manager.py:219-234 | a key no usable row names keeps its flags |
| Shortcuts.Save | src/shortcut_manager.py:239-257 | the file starts with the current header |
| Shortcuts.SaveRows | src/shortcut_manager.py:246-255 | each saved row has three fields and names a known key |
| Shortcuts.LoadSave | src/shortcut_manager.py:188-257 | saving and loading again gives back both flags of every key |
| Shortcuts.Load | src/shortcut_manager.py:200-234 | loading keeps exactly the catalogue keys, and no file gives the defaults |
| Shortcuts.LoadCurrentLayout | src/shortcut_manager.py:205-234 | a file with the current header is read row by row in the current layout |
| Shortcuts.LoadLegacy | src/shortcut_manager.py:214-229 | loading a legacy file leaves every key's two flags equal |
| Shortcuts.LegacyRowsSymmetric | src/shortcut_manager.py:225-229 | legacy rows keep the record flag equal to the playback flag |
| Shortcuts.IsAllowedRecord | src/shortcut_manager.py:259-265 | "None" and the empty combination always pass, and any other unknown combination is refused |
| Shortcuts.IsAllowedPlayback | src/shortcut_manager.py:267-273 | the same for playback: "None" and the empty combination pass, other unknown ones are refused |
| Shortcuts.UpdateShortcut | src/shortcut_manager.py:314-318 | a known key takes both flags, every other key is unchanged, and an unknown key changes nothing |
| Shortcuts.UpdateThenAllowed | src/shortcut_manager.py:259-318 | after an update the lookups answer the new flags for that key and the old ones for every other |
| Shortcuts.DefaultAllowed | src/shortcut_manager.py:188-273 | with the default table a catalogue key is allowed exactly when its default is enabled |
| Shortcuts.CtrlCScenario | src/shortcut_manager.py:188-318 | Ctrl+C is enabled by default; after turning its record flag off, a save and a load keep it off with playback on |
| Shortcuts.SetAll | src/shortcut_manager.py:320-326 | every known key takes each flag that is given and keeps the other |
| Shortcuts.Entries | src/shortcut_manager.py:279-312 | each listed entry is a known key of the order with its flags and its description |
| Shortcuts.EntriesComplete | src/shortcut_manager.py:279-312 | every known key of the order is listed |
| Shortcuts.GatherKeys | src/shortcut_manager.py:168-177 | a key is gathered exactly when some row defines it |
| Shortcuts.GatherAppends | src/shortcut_manager.py:168-177 | gathering only appends, and never a description the key already has |
| Shortcuts.GatherMembers | src/shortcut_manager.py:168-177 | a key holds a description exactly when it held it before or some row defines the key with it |
| Shortcuts.AppDefinitionsKeys | src/shortcut_manager.py:152-186 | a key is known exactly when some row of some file defines it |
| Shortcuts.AppDefinitionsValue | src/shortcut_manager.py:152-186 | a key's text is its distinct descriptions, in first-seen order, joined with 、; a description is among them exactly when some row gives it |
| ShortcutDialog.TagOf | shortcut_settings_dialog.py:251-353 | the row colour names exactly which flags are off |
| ShortcutDialog.Refresh | shortcut_settings_dialog.py:251-353 | no more rows than entries |
| ShortcutDialog.RefreshRows | shortcut_settings_dialog.py:251-353 | every row shows a visible entry, tagged and marked by its flags, and selected exactly when its key was selected before |
| ShortcutDialog.RefreshComplete | shortcut_settings_dialog.py:251-353 | every visible entry gets a row |
| ShortcutDialog.SelectionSurvives | shortcut_settings_dialog.py:251-353 | a selected key still visible after the refresh is still selected |
| ShortcutDialog.NoFilterShowsAll | shortcut_settings_dialog.py:251-353 | the initial filter shows every entry, in order |
| ShortcutDialog.HasDescHidesEmpty | shortcut_settings_dialog.py:251-353 | with the description box checked no row has an empty description |
| ShortcutDialog.NoneBoxAlone | shortcut_settings_dialog.py:251-353 | with only なし checked, exactly the keys without a modifier pass |
| ShortcutDialog.ModifierBoxesCombineByOr | shortcut_settings_dialog.py:251-353 | checking one more modifier box never hides a key another box matched |
| ShortcutDialog.TextMatchIgnoresCase | shortcut_settings_dialog.py:251-353 | a key or description containing the typed text matches, whatever the case |
| ShortcutDialog.DoubleClick | shortcut_settings_dialog.py:399-428 | the keys are kept; a click outside a cell or row changes nothing |
| ShortcutDialog.DoubleClickEffect | shortcut_settings_dialog.py:399-428 | only the clicked key changes: the Rec or Play flag flips, or off those columns both become the opposite of record |
| ShortcutDialog.DoubleClickTwice | shortcut_settings_dialog.py:399-428 | two double clicks on the same Rec or Play cell undo each other |
| ShortcutDialog.UpdateAll | shortcut_settings_dialog.py:390-393 | every listed known key takes both flags, every other key is unchanged |
| ShortcutDialog.Space | shortcut_settings_dialog.py:374-397 | the keys are kept |
| ShortcutDialog.SpaceEffect | shortcut_settings_dialog.py:374-397 | every selected key gets both flags equal to the flipped record flag of the first selected row; the others are untouched |
| ShortcutDialog.SpaceTwice | shortcut_settings_dialog.py:374-397 | space twice sets every selected row to the first row's original record flag |
| ShortcutDialog.SetSelection | shortcut_settings_dialog.py:430-447 | the keys are kept and unselected keys are untouched |
| ShortcutDialog.SetSelectionEffect | shortcut_settings_dialog.py:430-447 | every selected known key takes the chosen flag and keeps the other |
| ShortcutDialog.SetAllVisible | shortcut_settings_dialog.py:449-455 | the keys are kept |
| ShortcutDialog.SetAllVisibleEffect | shortcut_settings_dialog.py:449-455 | a known key with a visible entry takes both flags; a key with no visible entry is untouched |
| Overlay.ConvertTkKey | overlay_utils.py:10-37 | a mapped key name gives its mapping, a single letter its upper case, anything else itself |
| Overlay.ConvertSidesAgree | overlay_utils.py:10-37 | the left and right variant of each modifier give one canonical name |
| Overlay.ConvertIdempotent | overlay_utils.py:10-37 | converting twice changes nothing more |
| Overlay.RenamedNotKey | overlay_utils.py:11-25 | no name the renaming table produces is itself a key of the table |
| Overlay.KeyList | overlay_utils.py:47-48 | the names of the keys column are non-empty |
| Overlay.ModifiersFound | overlay_utils.py:49-58 | the modifiers present, each once, exactly those of the four that occur, in the order Ctrl, Shift, Alt, Win |
| Overlay.Listed | overlay_utils.py:58 | the names of the order that occur, once each when the order has no repeats |
| Overlay.ListedRanked | overlay_utils.py:58 | with no repeats in the order, the listed names come in the order's order |
| Overlay.OthersFound | overlay_utils.py:49-56 | the other keys, none of them a modifier; non-empty stripped `+`-free names give such labels |
| Overlay.OthersFoundOne | overlay_utils.py:49-56 | one key gives nothing when it is a modifier and its shown name (a single letter upper-cased) otherwise |
| Overlay.OthersFoundAppend | overlay_utils.py:49-56 | the other keys of a concatenation are those of each half in turn, so the result follows the input order with duplicates kept |
| Overlay.MouseFound | overlay_utils.py:60-63 | no mouse label exactly when the click is empty, "None", or has none of L, R, M |
| Overlay.InputDisplayText | overlay_utils.py:40-71 | the text is empty exactly when no mouse label and no non-modifier key is present |
| Overlay.DisplayTextReads | overlay_utils.py:40-71 | a non-empty text split at `+` and stripped gives back the modifiers, the mouse labels and the other keys, in that order, when no key name holds `+` |
| Overlay.ReadJoinedLabels | overlay_utils.py:71 | labels joined by ` + ` read back as themselves |
| Overlay.JoinPadded | overlay_utils.py:71 | joining with ` + ` is joining at `+` the labels padded with the separator's spaces |
| Overlay.StripPad | overlay_utils.py:71 | stripping removes the padding of a label |
| Overlay.HexToRgba | overlay_utils.py:74-88 | empty gives transparent black; the alpha is kept otherwise; a wrong length, or a character that is neither hex digit, sign nor whitespace, gives black |
| Overlay.PairWithBadChar | overlay_utils.py:80-85 | a two-character chunk holding any other character does not read as hex |
| Overlay.SixWithBadChar | overlay_utils.py:83-85 | a bad character in `rrggbb` spoils one of the three chunks |
| Overlay.ThreeWithBadChar | overlay_utils.py:80-82 | a bad character in `rgb` spoils one of the doubled chunks |
| Overlay.HexByte | overlay_utils.py:74-88 | two lower-case hex digits valued n |
| Overlay.HexRoundTrip | overlay_utils.py:74-88 | `#rrggbb` written from three bytes parses back to them |
| Overlay.ShortHexExpands | overlay_utils.py:80-82 | `#rgb` means exactly `#rrggbb` |
| Overlay.Recent | overlay_utils.py:414 | the entries younger than ten seconds, exactly |
| Overlay.Update | overlay_utils.py:389-414 | an empty text is a release; a held text is not added again but its time is; a new text is added and only the last ten seconds kept |
| Overlay.RecentAppend | overlay_utils.py:408-414 | pruning after appending a new entry keeps the recent old entries in order with the new one last |
| Overlay.NewInputOnTop | overlay_utils.py:389-425 | a combination that was not held goes on top of the shown stack with age 0 |
| Overlay.HeldOnce | overlay_utils.py:389-414 | holding a combination over many frames adds it once |
| Overlay.PressReleasePress | overlay_utils.py:389-414 | press, release and press again adds the combination twice |
| Overlay.ActiveInputs | overlay_utils.py:416-425 | every pair listed is the text of some history entry with that entry's age, and the age lies in [0, fade] |
| Overlay.ActiveNewestFirst | overlay_utils.py:416-425 | a later entry is listed before all earlier ones |
| Overlay.ActiveMembers | overlay_utils.py:416-425 | an entry whose age lies in the fade window is shown |
| Overlay.TakePrefix | overlay_utils.py:288 | `items[:n]` is a prefix of length min(n, len), or len + n for negative n |
| Recorder.ClickInfo | recorder_core.py:192-201 | "None" exactly when no button is down; otherwise one letter per pressed button, in the order L, R, M |
| Recorder.KeysDownMembers | recorder_core.py:203-232 | a name is listed exactly when it is a polled key one of whose codes is down |
| Recorder.KeysDownOrdered | recorder_core.py:203-232 | the names come in polling order |
| Recorder.KeysDownDistinct | recorder_core.py:203-232 | no name is listed twice |
| Recorder.KeyNameChars | recorder_core.py:203-232 | every key name is non-empty and has no comma, tab, line break or outer space |
| Recorder.KeysField | recorder_core.py:168 | "None" for no keys; otherwise splitting at commas gives back the names |
| Recorder.TimeMs | recorder_core.py:163 | the timestamp is the elapsed time rounded to a millisecond |
| Recorder.TimeMsMonotone | recorder_core.py:163 | a larger elapsed time never gets a smaller timestamp |
| Recorder.RecordLoop | recorder_core.py:87-189 | frames are numbered one per written frame; with TSV on there is exactly one sample per written frame, in order, and none with it off |
| Recorder.Start | recorder_core.py:28-51 | ignored while recording; otherwise a fresh empty buffer for the new path |
| Recorder.Stop | recorder_core.py:53-56 | the flag drops and the buffer is kept |
| Recorder.StartTwice | recorder_core.py:28-51 | a second start is a no-op |
| Recorder.StopThenStart | recorder_core.py:28-56 | after a stop a start begins a fresh recording |
| Recorder.SaveTrajectoryTsv | recorder_core.py:63-85 | nothing is written exactly when the buffer or the path is empty; the file sits at the video's root |
| Recorder.TsvPath | recorder_core.py:68 | the path ends in `.tsv` after a prefix of the video path |
| Recorder.TsvPathRoot | recorder_core.py:68 | the TSV path has the video's root |
| Recorder.EvenSize | recorder_core.py:104-105 | an odd dimension is reduced by one to an even one |
| Recorder.EvenSizeLargest | recorder_core.py:104-105 | it is the largest even value not above the input |
| Trajectory.NormalizeNewlines | src/ChulipVideo.py:2284 | text-mode reading leaves no carriage return |
| Trajectory.ParseRowsFrom | src/ChulipVideo.py:2287-2299 | every row kept comes from a line that parses to it |
| Trajectory.ParseRowsAppend | src/ChulipVideo.py:2287-2299 | lines parse independently |
| Trajectory.ContentLines | src/ChulipVideo.py:2284-2287 | the lines read from what the recorder writes are the header and one line per sample |
| Trajectory.ParseRowFields | src/ChulipVideo.py:2288-2299 | the fields the recorder writes for a sample parse back to its row |
| Trajectory.LoadTrajectory | src/ChulipVideo.py:2275-2300 | nothing without a video path or without the TSV beside it |
| Trajectory.DecodeEncode | src/ChulipVideo.py:2284-2299 | decoding what the recorder writes gives back every sample, in order, without its frame column |
| Trajectory.RecordThenLoad | src/ChulipVideo.py:2275-2300 | saving a recording and opening its video gives back the recorded samples |
| Trajectory.FindSample | src/ChulipVideo.py:2324-2329 | the first sample within a frame period of the playhead, or none when no sample is |
| Trajectory.Released | src/ChulipVideo.py:2343-2347 | the first button, in the order L, R, M, held in the earlier click and not in the later |
| Trajectory.RippleScan | src/ChulipVideo.py:2338-2348 | the ripple is the latest release within half a second before the sample, with its age; none when no such release exists |
| Trajectory.SubtitleSource | src/ChulipVideo.py:2324-2361 | the subtitle uses the chosen sample's click and keys, or the last row's when none is chosen |
| Trajectory.UpdateOverlay | src/ChulipVideo.py:2316-2392 | nothing is drawn without the check box or data; otherwise the sample is the first one within a frame period of the playhead (FindSample), the ripple is the latest release before it (RippleScan), and with subtitles the history takes the subtitle text of that sample and the first max_stack active inputs are shown; without subtitles the history is untouched |
| Trajectory.OverlayShowsNewInput | src/ChulipVideo.py:2316-2392 | a subtitle combination not already held appears on top of the shown stack with age 0 |
| Trajectory.KeyListOfRecorded | src/ChulipVideo.py:2361 | the keys column the recorder writes reads back as the same names |
| Trajectory.RecordedSubtitleEmpty | src/ChulipVideo.py:2361 | the subtitle of a recorded state is empty exactly when no button and no key other than a modifier is down |
| MultiPlayer.GridSize | src/multi_video_player.py:203-230 | the grid holds up to 16 players in at most 16 cells; beyond two players it has no whole spare row or no whole spare column |
| MultiPlayer.Cell | src/multi_video_player.py:203-230 | each player's cell lies in the grid |
| MultiPlayer.CellsDistinct | src/multi_video_player.py:203-230 | two players never share a cell |
| MultiPlayer.ClampFrame | src/multi_video_player.py:99-131 | the frame lies in the video, kept when in range, the last or first when beyond |
| MultiPlayer.Seek | src/multi_video_player.py:99-131 | the frame is clamped and the player is finished exactly for an empty video |
| MultiPlayer.Load | src/multi_video_player.py:61-75 | the rate is positive, the player paused at frame 0; an unopened file keeps no frames |
| MultiPlayer.Step | src/multi_video_player.py:133-150 | a paused player is unchanged; a playing one advances one frame, or is finished on its last |
| MultiPlayer.Duration | src/multi_video_player.py:239-248 | never negative, and 0 without a positive rate |
| MultiPlayer.LongestDuration | src/multi_video_player.py:239-250 | the longest duration among the opened videos, or 0 |
| MultiPlayer.Open | src/multi_video_player.py:189-230 | one player for each of the first 16 paths, paused at time 0 |
| MultiPlayer.Progress | src/multi_video_player.py:317-319 | at most 1, 0 without a duration, and the fraction of time elapsed |
| MultiPlayer.SeekAllByRatio | src/multi_video_player.py:263-272 | the global time is that fraction of the longest duration and each player seeks to its own frame for it |
| MultiPlayer.ProgressAfterSeek | src/multi_video_player.py:263-319 | seeking to a fraction shows that fraction as the progress |
| MultiPlayer.SyncPlayer | src/multi_video_player.py:290-305 | a player past its end is finished; otherwise it shows the frame of the global time |
| MultiPlayer.OnGlobalStep | src/multi_video_player.py:274-310 | global play advances 1/30 s up to the longest duration, every player follows, and the result says whether the end is not reached; otherwise each active player steps |
| MultiPlayer.AnyActive | src/multi_video_player.py:306-310 | some player is active exactly when one plays and is not finished |
| MultiPlayer.GlobalPlayEnds | src/multi_video_player.py:274-310 | from a time inside the longest duration, as many 1/30 s steps as cover what is left bring global play exactly to the end |
| WindowTool.FitAxis | ChunapTool.py:303-323 | the size is at least the minimum and equals the request when it fits; the window lies in the area when the area is large enough; a fitting window is kept |
| WindowTool.Clamp | ChunapTool.py:303-323 | the window is at least the minimum, inside an area large enough, and keeps a fitting size |
| WindowTool.ClampKeepsFitting | ChunapTool.py:303-323 | a window inside the area is left where it is |
| WindowTool.ClampIdempotent | ChunapTool.py:303-323 | clamping twice is clamping once |
| WindowTool.MonitorAt | ChunapTool.py:275-283 | the first monitor holding the window's centre, or the first one when none does |
| WindowTool.MonitorAtFirst | ChunapTool.py:280-283 | the monitor at the first index holding the point is the one picked |
| WindowTool.WorkArea | ChunapTool.py:292-301 | the first work area overlapping the monitor, or the first one when none does, or the monitor itself without work areas |
| WindowTool.WorkAreaFirst | ChunapTool.py:294-298 | the work area at the first index overlapping the monitor is the one picked |
| WindowTool.ApplyGeometry | ChunapTool.py:257-341 | the request goes through unchanged without monitors or with 画面外可; otherwise it is clamped into the work area of the monitor under the window's centre |
| WindowTool.RecordStep | ChunapTool.py:373-407 | the history stays bounded; no target or no change changes nothing; while dragging only a maximise change is recorded; a recorded change appends the last state |
| WindowTool.RecordKeepsOrder | ChunapTool.py:373-407 | a recorded change keeps every earlier entry, but the oldest when full |
| WindowTool.Undo | ChunapTool.py:409-432 | an empty history does nothing; otherwise the newest entry is popped and becomes the last state |
| WindowTool.UndoMove | ChunapTool.py:409-432 | the window is moved exactly when the restored state is not maximised |
| WindowTool.UndoAfterRecord | ChunapTool.py:373-432 | undo right after a recorded change gives back the history as it was |
| WindowTool.TargetChanged | ChunapTool.py:219-226 | with no last state or a different window the history is cleared and the last state becomes the new window's handle, rectangle and maximised flag; the same window, no window, or no rectangle keeps it |
| WindowTool.SwitchThenPoll | ChunapTool.py:219-226 | after a switch, polling the new window where it was records nothing, and polling it anywhere else outside a drag leaves exactly the switch state to undo |
| WindowTool.UndoAfterSwitch | ChunapTool.py:204-246 | after switching to another window undo does nothing |

## Left out

- The Tk widgets, drawing, cv2 decoding, ffmpeg, threads, clipboard and Win32 calls are left out. Their results (key state, canvas width, monitor list, frame contents) are parameters.
- File I/O and JSON are left out. A file is a string, a parsed map or a sequence of TSV rows, and a missing file is `None`.
- Float arithmetic is exact real arithmetic. Rounding error in `t += frame_interval` and in `round(x * fps) / fps` is not modelled.
- `int()` and `float()` accept ASCII digits with an optional sign, a decimal point and surrounding whitespace. Underscores, exponents, `inf` and `nan` are not modelled.
- `str.isalpha`, `upper` and `lower` cover the ASCII letters only.
- Whitespace (`Text.IsSpace`, used by `strip` and `split`) is tab, line feed, vertical tab, form feed, carriage return, U+001C to U+001F, space, U+0085, U+00A0 and U+3000. Python also counts U+1680, U+2000 to U+200A, U+2028, U+2029, U+202F and U+205F, which are not modelled.
- Config.HasLabel and Config.LeadingDigits: `\d` and `\s` in the preset-key pattern are read as ASCII digits and `Text.IsSpace`. Python's `re` on `str` also matches other Unicode decimal digits and the whitespace above.
- Export.SelectFrames: frames are compared with `==`. The source compares crops with a grayscale `absdiff`, and frame reading is a sequence of optional crops.
- Seekbar.GetT: the ZeroDivisionError of a bar of zero length is `None`, because nothing in the source catches it.
- Recorder.TimeMs: the elapsed time `now - start_time` is taken as never negative. The source reads the wall clock `time.time()` (recorder_core.py:111, 116), which can step back during a recording and then give a negative timestamp; such a clock is not modelled, and Sample.timeMs is a natural number.
- Recorder.SampleOf: the same assumption of a clock that never steps back.
- Recorder.RecordLoop: models a finite run of capture ticks whose elapsed times are never negative, that is, a wall clock that does not step back. Stopping, sleeping and the video writer are left out.
- Trajectory: the snapshot semantics of the TSV are modelled. The GIF and video exporters' overlays are not.
- WindowTool.ApplyGeometry: the maximised branch (ChunapTool.py:258) and the missing window rectangle (ChunapTool.py:267-269) are left out, because they only call Win32.
- WindowTool.TargetChanged: window handle 0 stands for "no window".
- The PNG, GIF and video export progress bars, file dialogs and the ffmpeg command lines are left out.
- MultiPlayer: frame decoding and the Tk time label are left out.
- Config.LoadGlobal: a JSON file whose top level is not an object is not modelled.
- Shortcuts: the column sort of the dialog (`_sort_column`) and the app-selection list boxes are left out, because they only reorder widgets.
