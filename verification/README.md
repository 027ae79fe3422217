# Keyboard heat-map core, modelled in Dafny

The repository is a real-time keyboard heat-map generator, kuku929/onehotkeyboard. It reads a keyboard layout from an XML file and draws the keyboard. Every typed character deposits "heat" around the key that produced it, and the program keeps a running "distance travelled" from the home row.

This project models the deterministic core of `ee23b137.py`, in four parts:

- **Layout parsing** (modules `LayoutTree`, `Keylist`, `Keymap`):
  - The parsed XML tree is a datatype. A `kbd` root holds rows, each row holds keys, and each key holds positions.
  - `__generate_keylist` validates one key. It checks `lower`, the character class, the duplicate counter and the shift target.
  - `__default_shift` is the QWERTY default table.
  - `__reset_count` zeroes the counters.
  - `__generate_keymap` builds three maps. Rows that share an id are merged, home rows feed the home-row map, and an empty home-row map is an error.
  - Python dicts are association lists (`Assoc`). A new key goes at the end, and updating an existing key keeps its slot.
- **What a parse guarantees** (modules `LayoutFacts`, `LayoutContents`):
  - A document is accepted exactly when its root, rows, keys and counters pass the checks, and this acceptance is described without running the parser.
  - For every name, the map entries hold the declaration read last.
- **Coordinate normalisation** (module `Normalize`), the arithmetic of `Painter.__draw_keys`:
  - Keys are grouped by raw y.
  - Each group is sorted stably by raw x.
  - Each key is pushed right of its predecessor, with widths of 1.0, +1.5 for the first key and +1.2 for the last.
  - The running extents `xmax` and `ymax` are kept.
  - `visual_keymap` and `find_nested_key` are modelled too.
- **Keystrokes** (modules `Heat`, `Painter`):
  - A character resolves through the alias table, then direct lookup, then reverse shift lookup.
  - Each hit deposits rings of points: 3, 9, 27 and 81 points at radii 0.1, 0.2, 0.4 and 0.8.
  - Each keystroke adds the distance to the nearest home-row key.
  - The density estimator sees a window of the stored points.

Coordinates are exact `real`s. `np.cos`, `np.sin` and `** 0.5` are parameters (the `Numerics` record). The only facts assumed about them are stated as `requires` on the lemmas that need them: `sqrt` is non-negative, and `cos² + sin² = 1`.

Two defects of the source are recorded under "## Findings". For each one the model keeps both versions:

- **Duplicate test.** The parser takes a `Policy`. `AsWritten` applies the source's test and `Corrected` applies the intended one. `ParseLayout` uses `Corrected`.
- **Label lookup.** The drawing takes a `LabelPolicy`. `FoldedLabel` is the source's lookup and `OwnLabel` is the intended one. The painter (`NewPainter`) uses `OwnLabel`.

Behaviours of the code worth noting, all modelled as written:

- **Unresolved character.** An unresolved character fails the whole update, because line 498 subscripts `None` (`Unresolved`).
- **Missing shift key.** A shifted character whose shift key is not drawn fails at line 492 (`MissingShiftKey`).
- **Special keys.** A special key gets a shift-mapping entry only when the layout declares it. The default table is consulted for each declared key and is never copied as a whole.
- **Duplicate definitions.** A character may be defined twice before the duplicate check refuses it (Finding 1).
- **The enter alias.** The alias table keys enter by the two-character string `"/r"` (line 363), so no typed character reaches it.
- **Invalid character without a position.** The invalid-character error of line 303 quotes the text of the first child of the key's first `pos`. For a key with no `pos`, or an empty one, building that message itself fails; the model reports this as `UnreportableCharacter`.
- **The Kelvin sign.** A `lower` attribute holding the Kelvin sign (U+212A) folds to `k` at line 302, so the key is accepted as `k` (`Keylist.KelvinKey`).

## Model

| member | source | states |
|---|---|---|
| LayoutTree.GetRows | ee23b137.py:50-60 | the rows come back exactly when the root tag is `kbd`; otherwise the error names the wrong tag |
| LayoutTree.RawPosition | ee23b137.py:63-112 | a key's position is read from its first `pos` child; it fails with the missing-position, missing-x or missing-y error, in that order of checks, exactly when one is absent |
| Text.Lower | ee23b137.py:302 | `str.lower()` keeps the length, lowers each ASCII letter and turns the Kelvin sign into `k` |
| Text.LowerIdempotent | ee23b137.py:332-335 | lowering the name returned by the default branch again changes nothing |
| Text.ContainsPiece | ee23b137.py:315 | the substring test `needle in hay` holds exactly when `needle` occurs as a contiguous piece of `hay` |
| Text.ContainsChar | ee23b137.py:326 | `c in string.ascii_uppercase` on a one-character string is membership of that character |
| Assoc.Get | ee23b137.py:123 | a dict lookup finds a value exactly when the key is present, and the pair is stored |
| Assoc.Put | ee23b137.py:179 | `d[k] = v` makes `k` map to `v`, leaves every other key alone, appends a new key at the end, keeps an old key's slot, and keeps keys distinct |
| Assoc.Update | ee23b137.py:182 | `d.update(e)` gives every key of `e` its value from `e` and every other key its old value; the old keys keep their slots and the new keys of `e` follow them in `e`'s order |
| Keylist.ResetCount | ee23b137.py:193-203 | the counter has a zero entry for exactly the printable characters and the seven special key names |
| Keylist.KelvinKey | ee23b137.py:300-335 | a key whose `lower` is the Kelvin sign is counted under `k`, passes the upper-case test, takes the default shift `K`, and is stored as `k` |
| Keylist.DefaultShiftLetter | ee23b137.py:222-224 | a lower-case letter shifts to its upper-case letter |
| Keylist.DefaultShiftNoUpper | ee23b137.py:222-248 | the default table has no entry for an upper-case letter |
| Keylist.DefaultShiftSpecial | ee23b137.py:250-252 | each special key shifts to itself |
| Keylist.SpecialKeyLower | ee23b137.py:140-148 | every special key name is already lower case, so the case fold at line 302 keeps it |
| Keylist.DefaultShiftDomain | ee23b137.py:221-252 | every name the table covers is already lower case and has a counter |
| Keylist.SymbolPrintable | ee23b137.py:226-248 | every unshifted symbol of the table is one printable non-letter |
| Keylist.Count | ee23b137.py:300-311 | the folded `lower` must have a counter (else invalid character) whose value is within the policy's threshold (else duplicate); on success exactly that counter goes up by one |
| Keylist.ShiftEntry | ee23b137.py:313-339 | with `upper`, a `lower` containing "shift" in any case is refused, otherwise `lower` maps to `upper`; without `upper`, an upper-case `lower` or one with no default entry is refused, otherwise `lower.lower()` maps to its default |
| Keylist.GenerateKeylist | ee23b137.py:267-342 | success exactly when the counter and shift checks pass; then the returned name folds to the counted name, one counter goes up, the shift mapping gets the key's target at that name and changes nowhere else, and a new name is appended |
| Keylist.KeylistErrors | ee23b137.py:287-307 | the errors come in the source's order: missing `lower`, then a character without a counter, then a duplicate; a character without a counter is reported as invalid when the key's first `pos` has a child whose text the message quotes, and as unreportable otherwise |
| Keymap.ParseKey | ee23b137.py:176-179 | one key succeeds exactly when it validates and its position reads; a validation error comes first |
| Keymap.ParseRowKeys | ee23b137.py:175-179 | the row map built from a row's keys never holds a name twice |
| Keymap.MergeRow | ee23b137.py:185-188 | merging a row under an id changes only that id's entries, and only at the row's names; a new id goes at the end; a repeated id keeps its row's names in place and appends the new names in row order |
| Keymap.MergeHome | ee23b137.py:180-182 | a row whose id lowers to "home" overrides the home-row map at its names and appends its new names in row order; any other row leaves it alone |
| Keymap.GenerateKeymap | ee23b137.py:168-191 | a parsed layout has a non-empty home-row map; a wrong root tag is the error |
| LayoutFacts.ParseKeyAccepts | ee23b137.py:287-311 | one key is accepted exactly when it is valid on its own and its folded name was counted at most the policy's threshold times before; the counters then count it |
| LayoutFacts.RowKeysAccept | ee23b137.py:175-179 | a row's keys parse exactly when every key is valid and the counters stay within the policy all along |
| LayoutFacts.FitsAfterCounts | ee23b137.py:304-311 | the stepwise counter test passes exactly when no name's final count exceeds the policy's maximum |
| LayoutFacts.RowKeysNonEmpty | ee23b137.py:175-179 | a parsed row map is empty exactly when the row declared no key |
| LayoutFacts.MergeHomeNonEmpty | ee23b137.py:180-182 | merging leaves the home-row map non-empty exactly when it was, or a home row brought keys |
| LayoutFacts.RowsAccept | ee23b137.py:174-188 | the rows parse exactly when every row has an id, every key is valid and the counters stay within the policy; the home-row map ends non-empty exactly when some home row declares a key |
| LayoutFacts.GenerateKeymapAccepts | ee23b137.py:168-191 | the parser succeeds exactly on the acceptable documents: a `kbd` root, valid rows and keys, no folded name defined more often than the policy admits, and a home row with a key |
| LayoutFacts.CorrectedKeysUnique | ee23b137.py:304-307 | with the corrected test no folded name occurs twice in an accepted document |
| LayoutFacts.AsWrittenAtMostTwice | ee23b137.py:304-311 | as written, an accepted document defines each folded name at most twice |
| LayoutContents.LatestInFound | ee23b137.py:174-188 | a name has a last declaration in scope exactly when some key in scope declares it, and that declaration is such a key |
| LayoutContents.RowKeysPoint | ee23b137.py:175-179 | after a row, the row map holds each name's last declared position in the row, and otherwise what it held |
| LayoutContents.RowKeysTarget | ee23b137.py:313-334 | after a row, the shift mapping holds each name's last declared target in the row, and otherwise what it held |
| LayoutContents.RowsKeymap | ee23b137.py:183-188 | after the rows, each keymap entry is the last declaration under that id and name |
| LayoutContents.RowsHome | ee23b137.py:180-182 | after the rows, each home-row entry is the last declaration in any home row |
| LayoutContents.RowsShift | ee23b137.py:313-334 | after the rows, each shift-mapping entry is the target of the last declaration in any row |
| LayoutContents.LayoutContent | ee23b137.py:168-191 | a parsed layout's three maps hold, for every id and name, the last declaration read |
| LayoutContents.CorrectedLatest | ee23b137.py:174-188 | with the corrected test, every key of an accepted document is the last declaration of its name in any scope that holds it |
| LayoutContents.KeymapDistinct | ee23b137.py:185-188 | a parsed keymap has one row per id |
| LayoutContents.TwoDefinitions | ee23b137.py:304-311 | two different keys with the same folded name make that name counted at least twice |
| LayoutContents.CorrectedNamesDistinct | ee23b137.py:304-307 | with the corrected test, no two keys of an accepted document share a folded name |
| LayoutContents.CorrectedLayoutExact | ee23b137.py:168-191 | with the corrected test, every key is found at its own position in its row, in the home-row map if its row is a home row, and with its own or default shift target |
| DuplicateFinding.AsWrittenAcceptsTwice | ee23b137.py:304-311 | as written, a home row defining `a` twice is accepted, and the second position silently wins |
| DuplicateFinding.CorrectedRejectsTwice | ee23b137.py:304-307 | with the corrected test, the same document is rejected |
| Normalize.AddToGroup | ee23b137.py:557-559 | appending an entry extends exactly the group at its height, creating it if new |
| Normalize.GroupByYSpec | ee23b137.py:552-559 | each group holds exactly the entries at its height, in keymap order; a height with no entry has no group |
| Normalize.GroupsNonEmpty | ee23b137.py:552-559 | `ordered_keymap` has distinct heights and no empty group |
| Normalize.SortByX | ee23b137.py:563-567 | the sort returns a permutation, in ascending x, that keeps the relative order of equal x (stable) |
| Normalize.Insert | ee23b137.py:563-567 | inserting one key into a sorted group keeps it sorted, adds exactly that key, and puts it after every key with the same x |
| Normalize.PlaceOneSpec | ee23b137.py:575-599 | one key keeps its name and raw x, lands at `max(x, prev_x + xsize + 0.3)` with the width of its position, and the extents grow to cover its box |
| Normalize.PlaceKeysShape | ee23b137.py:575-592 | the placed keys keep the group's names and raw x in order, and their widths follow the first/last bonus rule |
| Normalize.PlaceKeysRight | ee23b137.py:576 | no key lands left of its raw x |
| Normalize.PlaceKeysGap | ee23b137.py:576-592 | each key starts at least its predecessor's width plus the padding after it |
| Normalize.PlaceKeysSpec | ee23b137.py:572-592 | the group's placement: names and raw x kept, no key moved left, the first key pushed by the width carried in, padding gaps, first/last widths |
| Normalize.PlaceKeysFirst | ee23b137.py:572-576 | the first key of a group lands at `max(x, prev_x + xsize + 0.3)` with the carried width and gets the first-key width |
| Normalize.PlaceKeysExtent | ee23b137.py:596-599 | `xmax` covers every box plus padding, `ymax` covers the row, neither shrinks, and the last key's width is carried on |
| Normalize.PlaceGroupSpec | ee23b137.py:563-592 | a group comes out in ascending raw x and laid out by the rules; its first key is pushed by the carried width plus padding |
| Normalize.PlaceGroupExtent | ee23b137.py:596-599 | after a group the extents cover every box of it and the row, never shrink, and carry on the last key's width |
| Normalize.PlaceGroupsRows | ee23b137.py:563-600 | each group becomes one drawn row at its height, in group order |
| Normalize.PlaceGroupsFirstKeys | ee23b137.py:572-580 | the first key of every row is pushed by the previous row's last width (the stale `xsize`), and by 1.0 for the first row |
| Normalize.PlaceGroupsExtent | ee23b137.py:596-599 | the final extents cover every drawn box and row and never shrink |
| Normalize.PlaceGroupsVisual | ee23b137.py:573-595 | `visual_keymap` gets one entry per drawn row, built from that row's keys |
| Normalize.VisualRowHas | ee23b137.py:595 | a name is in a `visual_keymap` row exactly when a drawn key of the row has it |
| Normalize.VisualRowFrom | ee23b137.py:595 | what a `visual_keymap` row holds for a name is the adjusted position of a key of that name |
| Normalize.FindNestedFirst | ee23b137.py:115-127 | `find_nested_key` finds a value exactly when some inner dict has the key, and then it is the first such dict's value |
| Normalize.VisualFindHas | ee23b137.py:115-127 | looking a name up in `visual_keymap` succeeds exactly when a key of that name was drawn |
| Normalize.VisualFindValue | ee23b137.py:115-127 | what the lookup finds is the adjusted position of a drawn key of that name |
| Normalize.RowUnlabelledSpec | ee23b137.py:617 | the lookups of one row all succeed exactly when each key's label has an entry; otherwise the failure names a key of the row without one |
| Normalize.UnlabelledSpec | ee23b137.py:617 | the label lookups all succeed exactly when every drawn key's label has an entry; otherwise the first failure names a drawn key without one |
| Normalize.GroupContents | ee23b137.py:552-559 | every group of `ordered_keymap` holds exactly the keymap entries at its height |
| Normalize.DrawRows | ee23b137.py:552-600 | the drawn rows match the groups of `ordered_keymap` one to one, sorted and laid out |
| Normalize.DrawLayout | ee23b137.py:538-600 | the whole drawing: first keys pushed by the stale width, extents covering every box, `visual_keymap` aligned with the drawn rows |
| Normalize.DrawnNames | ee23b137.py:552-595 | exactly the keymap's names are drawn |
| Normalize.DrawKeysLabels | ee23b137.py:538-621 | drawing succeeds exactly when every keymap name has a label entry, and then yields the unlabelled drawing; otherwise it names a keymap name without one |
| LabelFinding.FoldedLabelFails | ee23b137.py:617 | as written, the accepted layout with one key `lower="A" upper="!"` fails the label lookup, and fails on "A" |
| LabelFinding.OwnLabelsDraw | ee23b137.py:617 | labelling by the stored name, every parsed layout is drawn |
| LabelFinding.KeymapNameShifts | ee23b137.py:313-342 | every name in a parsed keymap has a shift-mapping entry of its own |
| LabelFinding.KeymapNameDeclared | ee23b137.py:174-188 | every name in a parsed keymap was declared by some key of the document |
| Heat.RadiusBelowOne | ee23b137.py:449-460 | the radius loop runs for exactly four rings |
| Heat.Deposit | ee23b137.py:442-460 | the loop appends exactly the rings of the deposit to both lists, keeping what was stored |
| Heat.AppendRing | ee23b137.py:454-459 | the inner loop appends exactly one ring's points, in order |
| Heat.DepositRings | ee23b137.py:449-460 | a deposit is the rings of radius 0.1, 0.2, 0.4, 0.8 with 3, 9, 27, 81 points |
| Heat.DepositSize | ee23b137.py:442-460 | one deposit appends 120 points to each list |
| Heat.DepositOnRings | ee23b137.py:455-457 | every point of a deposit lies at its ring's radius from the centre |
| Heat.RingOnCircle | ee23b137.py:455-457 | every point of one ring lies at that ring's radius from the centre |
| Heat.DepositPoint | ee23b137.py:449-460 | the t-th deposited point is a point of the ring that index t falls in |
| Heat.WindowSuffix | ee23b137.py:510-513 | the estimator sees the last `min(n, 3000)` points, in order |
| Heat.WindowAppend | ee23b137.py:510-513 | windowing before appending new points gives the same window as windowing after |
| Heat.WindowIdempotent | ee23b137.py:510-513 | windowing an already windowed list changes nothing |
| Painter.KeyOfAliases | ee23b137.py:360-364 | space, tab and delete are renamed, everything else stands for itself, and no character reaches "enter" |
| Painter.NewPainter | ee23b137.py:346-395 | the painter starts from the drawn `visual_keymap`, the layout's home row and shift mapping, the final `xmax`, and no points |
| Painter.ShiftScanFirst | ee23b137.py:482-493 | the reverse shift scan succeeds exactly when some entry produces the character from a drawn key, and then it uses the first such entry |
| Painter.ResolveSpec | ee23b137.py:469-495 | a drawn name is a direct hit at its position; otherwise it is unresolved exactly when no entry produces the name, and a successful scan hits the first producing entry's key together with the shift key on the far side of `xmax/2` |
| Painter.HitDepositsGrow | ee23b137.py:486-497 | a hit appends 120 points per deposit (one or two) to each list and keeps the old points |
| Painter.HomeDistance | ee23b137.py:498 | the distance added is the smallest distance to a home-row key, and it fails only with an empty home row |
| Painter.MinOf | ee23b137.py:498 | `min` of a non-empty list is one of its elements and no larger than any |
| Painter.PressSpec | ee23b137.py:469-498 | one keystroke succeeds exactly when the character resolves and the home row is not empty; it then deposits the hit and leaves the lookup tables alone |
| Painter.PressesSucceed | ee23b137.py:469-498 | the keystrokes all go through exactly when every character resolves and the home row is not empty |
| Painter.PressesGrow | ee23b137.py:469-497 | after the keystrokes the lists grow by 120 per deposit, keep the old points, and the lookup tables are unchanged |
| Painter.PressesDistance | ee23b137.py:468-498 | with a non-negative square root, the distance travelled is never negative |
| Painter.UpdateHeatmapSpec | ee23b137.py:462-513 | `update_heatmap` succeeds exactly when every character resolves; the stored lists then grow by 120 per deposit and keep the old points; the estimator sees exactly the last `min(n, 3000)` of them |
| Painter.PainterFromLayout | ee23b137.py:346-395 | a painter started from any parsed layout is drawn, has a home row, and its `visual_keymap` is the drawn one |
| Painter.PainterFinds | ee23b137.py:477 | a painter from a parsed layout finds a name directly exactly when the keymap holds it, and at a drawn key's adjusted position |

## Left out

- File reading and `ET.parse` are left out. The model starts from the parsed tree. Its `x` and `y` leaves are numbers already; `float(text)` is not modelled.
- The tag checks of `get_keys`, `get_positions`, `get_x` and `get_y` are not modelled. The typed tree only offers children of the right tag, so these checks cannot fail. Only the root check of `get_rows` is kept.
- The blanket re-wrap of every parse error into `ValueError` (lines 164-165) is not modelled. Each error is its own variant.
- `print_keymap`, `show_root`, `show_children` and the printed warnings are left out, because they only print.
- The `is_generated` guard is left out. It is reset before every parse and cannot trigger.
- All matplotlib work is left out: figure, patches, text, scatter, colour maps and blitting. So are `gaussian_kde` and the `np.mgrid` grid. These are rendering and floating-point numerics in foreign libraries. The label lookup of line 617 is kept, because it can fail.
- `AsyncIO` terminal capture and `main` are left out, because they are platform I/O.
- Nested rows and keys are not modelled. `get_rows` and `get_keys` iterate over all descendants with the tag, not just direct children (lines 47 and 59). The typed tree's `rows` and `keys` stand for those descendants in document order.
- Text.Lower: it changes the ASCII capitals and the Kelvin sign only. Python's `str.lower` also folds other characters outside ASCII, but each of them folds to a string that still holds a character outside ASCII (`'İ'` becomes `'i'` followed by a combining dot). So such a string has no counter at line 302 either way, and the test for "shift" at line 315 comes out the same.
- Heat.RingOnCircle, Heat.DepositOnRings: `np.cos`/`np.sin` are parameters. The ring geometry is proved assuming the Pythagorean identity; float rounding is not modelled. `np.pi` is its float literal.
- Painter.PressesDistance: it is proved for any `sqrt` that returns non-negative values. The square root itself is a parameter.
- Painter.UpdateHeatmapSpec: a failing keystroke fails the whole update. The points deposited by earlier keystrokes of the same call are not reported, even though the source has already appended them before raising.

## Findings

| source | as written | input that shows it | evidently intended | confidence | as-written member | corrected member |
|---|---|---|---|---|---|---|
| ee23b137.py:304-311 | a key is rejected only when its counter is already above 1, so the second definition of a character passes and silently replaces the first | a `home` row with two keys `lower="a"`, at (0,0) and (1,0): parsing succeeds and the home row holds `a` at (1,0) | any definition after the first is rejected, as the error message says | not executed | DuplicateFinding.AsWrittenAcceptsTwice | DuplicateFinding.CorrectedRejectsTwice |
| ee23b137.py:617 | each drawn key is labelled with `shift_mapping[char.lower()]`, but a key with an explicit `upper` is stored under its `lower` unchanged, so the lookup raises `KeyError` | a `home` row with one key `lower="A" upper="!"` at (0,0): parsing succeeds and drawing fails on "A" | the label is looked up under the name the key was stored under | not executed | LabelFinding.FoldedLabelFails | LabelFinding.OwnLabelsDraw |
