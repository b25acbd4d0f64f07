# Rail printer: layer zoning and zone listener

This project models the text logic of the rail printer tools:

- **The G-code zoner** (`process_gcode_file` in `railbatcher.py`).
  - It reads the lines of a sliced G-code file and cuts them into layers. A new layer starts at every Z-move line.
  - It replaces each layer by a block of five copies. Before copies two to five it writes an `M118 P0 Zone d` broadcast (d = 200, 400, 600, 800) and a `G92 E0` extruder reset. After the last copy it writes `M118 P0 Zone 0`.
  - It wraps the result in a fixed header and footer.
- **The save-name suggestion** of the GUI. It inserts `_ZONED` before the input file's last extension.
- **The zone listener** of `rails.py`.
  - It strips every status line and skips empty lines and `wait`.
  - It searches case-insensitively for `Zone\s+(-?\d+)`.
  - A match moves the listener's rail axis (X for the left port, Y for the right port) to that zone.

Modules, one file each:

| file | module | contents |
|---|---|---|
| `wrappers.dfy` | `Wrappers` | `Option` |
| `text.dfy` | `Text` | Python's `strip`, the `in` substring test, `"".join` (`Flatten`), the last-occurrence search used by `rsplit`, and decimal text with its read-back |
| `layers.dfy` | `Layers` | the Z-move test and the layer segmentation |
| `expansion.dfy` | `Expansion` | the block for one layer, the document, and the imperative loop `ProcessGcode` that writes it |
| `savename.dfy` | `SaveName` | the suggested output name, `SuggestName`: `TagName` applied to `Basename` of the input path |
| `zones.dfy` | `ZoneEvents` | the regex as a declarative match predicate, a scanner, the listeners, and the round trip from the zoner's markers to the listener's events |

Segmentation is stated for any boundary test. The loop state is modelled as `Scan(layers, buffer)`. Its reference definition is `WellSegmented` together with "the layers concatenate to the input". `SegmentUnique` shows that exactly one partition satisfies both.

Behaviour worth knowing, all of it modelled as the code does it:

- **Glued last line.** A last input line without a line terminator is followed directly by the next copy or marker text, with no newline in between. `ExpandLayerShape` states this.
- **Layer count.** The number of layers is the number of Z-move lines, plus one when the input is non-empty and does not start with a Z-move. The lines before the first Z-move form a layer of their own.
- **Whitespace after the word.** The regex needs whitespace after the word, so `ZONE0` announces nothing.
- **No word boundary.** The regex has no word boundary, so `ozone 5` announces zone 5.

## Model

| member | source | states |
|---|---|---|
| Text.Strip | railbatcher.py:85 | the result is the input with a maximal whitespace prefix and suffix removed: what remains neither starts nor ends with whitespace, and the removed parts are all whitespace |
| Text.StripUnique | rails.py:47 | any such whitespace-free core of a string is the one `strip` returns |
| Text.Contains | railbatcher.py:88 | `sub in s` holds exactly when `sub` occurs in `s` at some position |
| Text.LastIndexOf | railbatcher.py:198 | the index found holds the character and no later index does; no index is found exactly when the character does not occur |
| Text.DecimalRoundTrip | rails.py:53 | reading back the decimal text of a non-negative integer gives that integer |
| Layers.CutComment | railbatcher.py:85 | `line.split(';')[0]` is the longest prefix of the line without `;`: it stops at the first `;` or at the end |
| Layers.IsZMoveMeaning | railbatcher.py:85-88 | a line is a boundary iff its cut, stripped text holds `G0 ` or `G1 ` somewhere and ` Z` somewhere |
| Layers.CommentIgnored | railbatcher.py:85-88 | appending `;` and any comment to a line does not change whether it is a boundary |
| Layers.LeadingZMove | railbatcher.py:85-88 | every line starting with `G0 Z` or `G1 Z` and holding no `;` is a boundary, whatever follows |
| Layers.Segment | railbatcher.py:83-116 | the layers concatenate back to the input lines; every layer is non-empty; every layer after the first starts with a boundary line; no boundary line appears except as a first line; there is one layer per boundary line plus one for a non-empty input that does not start with a boundary |
| Layers.RunInvariant | railbatcher.py:90-112 | after any prefix of the input, the written layers plus the open buffer are that prefix cut into well-formed layers; the buffer is empty only before the first line |
| Layers.SegmentUnique | railbatcher.py:90-116 | any partition of the input into well-formed layers is the one the loop produces |
| Layers.SegmentSplitsAtBoundary | railbatcher.py:90-109 | cutting the input right before a boundary line cuts the layer list there too |
| Layers.SingleLayer | railbatcher.py:110-116 | lines with no boundary after the first form a single layer |
| Layers.BoundariesOpenLayers | railbatcher.py:90-109 | a line after a non-empty prefix opens a new layer iff it is a boundary |
| Expansion.ZoneMarkerTexts | railbatcher.py:99-106 | the five broadcast lines are `M118 P0 Zone 200`, `400`, `600`, `800` and `0`, each ended by a line feed |
| Expansion.ExpandLayerShape | railbatcher.py:94-106 | the block is the layer, then for zones 200, 400, 600, 800 in order the broadcast, the reset and the layer, then the `Zone 0` broadcast: five identical copies, four resets, none before `Zone 0` |
| Expansion.LayerOfExpandLayer | railbatcher.py:94-106 | a block is five times the layer's length plus a fixed overhead, and its first fifth is the layer again |
| Expansion.ExpandLayerInjective | railbatcher.py:94-106 | different layers give different blocks |
| Expansion.WriteBlock | railbatcher.py:117-128 | writing a layer the way the flushes do appends exactly its block |
| Expansion.TailExpandedLikeAnyLayer | railbatcher.py:114-128 | the last layer, flushed after the loop, is expanded exactly like any layer flushed inside it |
| Expansion.BodySplitsAtBoundary | railbatcher.py:90-109 | the expansion of input cut before a Z-move is the expansion of the two parts, concatenated |
| Expansion.BlocksRecoverInput | railbatcher.py:83-128 | one block per layer, and reading each block's layer back and joining them gives the input text |
| Expansion.WriteLayers | railbatcher.py:80-128 | the loop, with its in-loop and end-of-input flushes, appends the blocks of the segmented layers in order |
| Expansion.ProcessGcode | railbatcher.py:76-131 | the document written is the header (which ends in a line feed), two more line feeds giving two blank lines, the blocks of all layers in order, a line feed and the footer |
| Expansion.TransformEmpty | railbatcher.py:78-131 | for empty input the document is the header, three line feeds and the footer |
| SaveName.Basename | railbatcher.py:196 | the base name is a suffix of the path without `/`, preceded by `/` unless it is the whole path |
| SaveName.BasenameAfterSlash | railbatcher.py:196 | the base name of `dir/name` is `name` |
| SaveName.TagName | railbatcher.py:197-201 | the suggestion is the base name with `_ZONED` inserted right before its last `.`, or at its end when it has no `.` |
| SaveName.TagPositionUnique | railbatcher.py:197-198 | a name has only one place where the tag may go |
| SaveName.TagBeforeExtension | railbatcher.py:197-199 | `base.ext`, with no `.` in `ext`, becomes `base_ZONED.ext` |
| SaveName.TagAtEnd | railbatcher.py:200-201 | a name without `.` becomes `name_ZONED` |
| SaveName.SuggestNameOf | railbatcher.py:196-199 | the path `dir/base.ext`, with no `/` in `base` or `ext` and no `.` in `ext`, is offered as `base_ZONED.ext` |
| SaveName.SuggestNameWithoutExtension | railbatcher.py:196-201 | the path `dir/name`, with neither `/` nor `.` in `name`, is offered as `name_ZONED` |
| ZoneEvents.MatchAt | rails.py:43 | a match found at a position is a match of `Zone\s+(-?\d+)` there: the word in any case, whitespace, an optional minus, and a maximal digit run |
| ZoneEvents.MatchAtComplete | rails.py:43 | every match of the pattern is found at its start position, so a start fixes the match |
| ZoneEvents.FindZone | rails.py:50 | the search returns a match starting no earlier than any other, and returns none only when there is no match |
| ZoneEvents.ZoneOf | rails.py:47-53 | empty and `wait` lines give no zone; otherwise a zone is given iff the stripped line has a match, and it is the signed value of the leftmost match |
| ZoneEvents.ReadAnnouncement | rails.py:43 | text made of a prefix without `z`, the word, whitespace, an optional minus, digits and a non-digit rest matches at the word, capturing those digits |
| ZoneEvents.HeardLine | rails.py:47-53 | a line made of a prefix with no `z` in either case and no leading whitespace, then `Zone `, the decimal text of any integer `v` and only whitespace after it, gives zone `v` |
| ZoneEvents.HeardZone | rails.py:47-53 | `Zone v` with any trailing whitespace gives zone `v`, for every integer `v` |
| ZoneEvents.MarkerIsHeard | rails.py:47-53 | every `M118 P0 Zone d` line the zoner writes gives zone `d` |
| ZoneEvents.SkippedLinesExample | rails.py:48 | `wait` and a whitespace-only line give no zone |
| ZoneEvents.MotionReportExample | rails.py:50-51 | a position report without the word gives no zone |
| ZoneEvents.GluedZoneExample | rails.py:43 | `ZONE0` gives no zone: whitespace is required after the word |
| ZoneEvents.DetachedSignExample | rails.py:43 | `Zone - 5` gives no zone: the minus must touch the digits |
| ZoneEvents.NegativeZoneExample | rails.py:43-53 | `zone   -5` gives -5: any letter case, several spaces, a sign |
| ZoneEvents.EmbeddedZoneExample | rails.py:43-53 | `ozone 12abc` gives 12: no word boundary, and the digit run ends at the first non-digit |
| ZoneEvents.FirstZoneWinsExample | rails.py:50-53 | `Zone 1 zone 2` gives 1: the leftmost match counts |
| ZoneEvents.React | rails.py:45-55 | a listener moves iff its stripped line has a match, on its own axis, to the value of the leftmost match |
| ZoneEvents.ListenersAgree | rails.py:45-67 | both listeners react to exactly the same lines with the same zone, the left one on X and the right one on Y; a line without a zone moves nothing |

## Left out

- File opening, reading and writing, and the `True`/`False` result of `process_gcode_file`, which only reports I/O errors. The input is the list of lines `readlines` returns, each with its own terminator. The output is the text handed to `write`, before the newline translation of a text-mode file (`\r\n` on Windows).
- The tkinter GUI: dialogs, labels, message boxes, and the "no file selected" guard in `process_and_save`.
- Serial ports, the `$X`/`G21`/`G90` start-up sequence, `send` pacing with `time.sleep`, draining the port after a move, the threads and the shutdown path. A listener is modelled as its reaction to one line.
- The position sent to the rail, `val/scaler` with scaler 95, and its `G0 X{pos}` text. These are floating point; a reaction carries the integer zone.
- UTF-8 decoding with dropped invalid bytes, and the non-ASCII whitespace, digit and case-folding rules of Python strings and regular expressions. Text is ASCII here.
- Console logging with `print`.
- ZoneEvents.ZoneOf: returns the zone for a digit run of any length. On CPython 3.11 and later, `int()` raises `ValueError` for a run of more than 4300 digits. The exception is not caught, so it ends that listener's thread; this is not modelled. The zoner only writes zones 0 to 800.
- ZoneEvents.React: moves for every zone value. In the source, `val/95` raises `OverflowError` once the quotient leaves the floating-point range (a run of about 311 digits), and the `int()` digit limit above applies too. Either exception ends that listener's thread; this is not modelled. `HeardLine` and `HeardZone` hold for every integer in the model for the same reason.
