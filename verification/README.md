# roommd core in Dafny

roommd reads a Markdown-like text that describes the rooms of a building
as unfolded "nets" of ASCII art. It lays the rooms out in 3D by matching
the symbols drawn on touching walls. This project models the core of
`src/main.rs`:

- **Face slicer.** `get_letters_in_ascii_grid` cuts a window out of the
  net lines. It lists every cell that is not a border or filler character
  (`+ - space |`) as `(column, row, symbol)`, in row-major order.
- **Document and net parser.**
  - The text is cut at every `#`, and blank pieces are dropped.
  - A section whose trimmed first line is one character long is a
    description of that symbol. A later description of the same symbol
    overwrites an earlier one.
  - Every other section is a room net. Its size is measured:
    - the width is the trimmed length of the first line;
    - the depth is one more than the index of the first later line that
      starts with `+`;
    - the height is the number of lines left.
  - The character count of the net (line breaks removed) is checked
    against the surface area.
  - The six faces (top, back, right, front, left, floor) are sliced at
    fixed offsets of the unfolded cross.
- **Symbol index.** Each symbol's position is appended to a list keyed by
  symbol, face and room id, in face scan order. The program nests three
  maps (symbol, then face, then room); the model keeps one map keyed by
  the triple, which holds the same lists.
- **Layout solver.** Two passes run over every symbol and every pair of
  opposite faces. For each room `c ≠ 0` and each earlier room `o < c`:
  - `c`'s positions are sorted;
  - `o`'s positions are mirrored across the face and sorted;
  - both lists are normalised to their first position;
  - if the two lists are equal, `c` is placed flush against `o`. The
    placement is along the pairing's axis, shifted in the face plane by
    the difference of the lists' first positions.

Modules, in dependency order:

- `Wrappers`: `Option`/`Result`.
- `Text`: Rust's `trim`, `split`, `lines` and `replace` on `seq<char>`.
- `Grid`: the slicer.
- `Net`: rooms, measurement and face slicing.
- `Document`: sections and the parse fold.
- `Index`: the symbol index.
- `Shapes`: sort, move, normalise, mirror.
- `Layout`: the solver.
- `Pipeline`: parse, index, solve.

The program's panics abort the whole run. The model turns each one into an
error value:

- `lines[0]` on an empty net;
- `unwrap` of a missing depth marker;
- `usize` underflow of the height;
- the failed area `assert_eq!`;
- a slice outside the lines.

Room coordinates are `real`. The source's `f32` values are sums of
integers and halves of integers, so they are exact.

Three behaviours of the code shape the model:

- The code skips line 0 after numbering the lines, so the depth is always
  at least 2. A net of depth 1, such as a unit cube, cannot be parsed.
  `Net.Measure` states `2 <= depth`.
- Sections are cut at every `#`, not only at a `#` that starts a line.
- The top/floor mirror reflects rows in the other room's **height**. The
  face's row count, as sliced, is that room's **depth**.
  `Shapes.MirrorShapeIgnoresExtent` and
  `Layout.MatchIgnoresExtent` show that this never changes whether two
  faces match. It only moves the mirrored anchor, by exactly the
  difference of the two extents, and so it changes the in-plane offset
  applied on a top/floor match whenever height ≠ depth.

## Model

| member | source | states |
|---|---|---|
| Grid.Window | src/main.rs:48-68 | The window exists exactly when it lies inside the lines. Every emitted cell is inside the window and is not `+ - space \|`. Its symbol is the character at that place. Every such character of the window is emitted. The output is strictly row-major. A zero-width or zero-height window is empty. |
| Grid.ScanRow | src/main.rs:61-65 | One row of the window: cells in the row, not ignored, carrying the character at that place. Every non-ignored column is listed, in ascending column order. |
| Grid.ScanRows | src/main.rs:57-66 | The first `k` rows: the same guarantees over rows and columns, in strictly row-major order. |
| Grid.AppendRow | src/main.rs:57-66 | Cells of a later row, appended after the earlier rows, keep the whole list strictly row-major. |
| Grid.WindowListsEachCellOnce | src/main.rs:57-66 | No cell is emitted twice. |
| Text.SkipWhitespace | src/main.rs:123-126 | The first index at or after `i` that is not whitespace, or the end; everything skipped is whitespace. |
| Text.BackOverWhitespace | src/main.rs:123-126 | The last index down to `lo` after which only whitespace follows; everything stepped over is whitespace. |
| Text.Trim | src/main.rs:123-126 | The result is a contiguous slice of the input, preceded and followed only by whitespace, with no whitespace at either end. It is empty exactly when the input is all whitespace. |
| Text.TrimBothEnds | src/main.rs:123-126 | Trimming both ends at once equals trimming the start, then the end. |
| Text.TrimStart | src/main.rs:123-126 | Drops exactly a whitespace prefix. |
| Text.TrimEnd | src/main.rs:123-126 | Drops exactly a whitespace suffix. |
| Text.Find | src/main.rs:123 | The first occurrence of a character, or none exactly when it does not occur. |
| Text.SplitOn | src/main.rs:123 | At least one piece, no piece contains the separator, and joining the pieces with the separator gives the input back. |
| Text.StripCarriageReturn | src/main.rs:124 | A line ending in `\r` loses exactly that `\r`; any other line is unchanged. |
| Text.Lines | src/main.rs:124 | No line contains `\n`. There are no lines exactly when the input is empty. |
| Text.DropAtBreak | src/main.rs:124 | Dropping the `\r` of every `\r\n` acts on the text before the first break as stripping one trailing `\r`. |
| Text.LinesRoundTrip | src/main.rs:124 | The lines, each followed by `\n`, give back the input with the `\r` of every `\r\n` removed and a final `\n` added when it had none. So nothing but those `\r` is lost, and the lines keep their order. |
| Text.RemoveLineBreaks | src/main.rs:146 | No `\n` or `\r` is left. |
| Text.RemoveLineBreaksAppend | src/main.rs:146 | Removing breaks from two texts joined is removing them from each and joining, so the order of the other characters is kept. |
| Text.RemoveLineBreaksCounts | src/main.rs:146 | Every character other than `\n` and `\r` occurs as often as in the input, and the length drops by exactly the number of breaks. |
| Document.NonBlank | src/main.rs:123 | Keeps exactly the pieces that are not all whitespace. |
| Document.NonBlankCons | src/main.rs:123 | The first piece is kept, in front of the rest, exactly when it is not blank. |
| Document.NonBlankAppend | src/main.rs:123 | Filtering two runs of pieces joined is filtering each and joining, so the kept pieces stay in their order. |
| Document.NonBlankOne | src/main.rs:123 | A single piece is kept exactly when it is not blank. |
| Document.Heading | src/main.rs:124-126 | The heading has no line break and no whitespace at either end. A blank section has an empty heading. |
| Document.Body | src/main.rs:124-127 | The body has no whitespace at either end. A section without a line break has an empty body. |
| Document.ClassifyParts | src/main.rs:124-135 | A section is a description exactly when its heading has length 1, with that character and the body as text. Otherwise it is a room net whose outcome is the decoding of its body. |
| Document.Classified | src/main.rs:123-127 | One classified section per non-blank piece, in order. |
| Document.NetOutcomes | src/main.rs:132-171 | The decoding outcomes of the room-net sections, never more than the sections. |
| Document.NetOutcomesAppend | src/main.rs:123-171 | The outcomes of two runs of sections are those of each, in order. |
| Document.NetOutcomesOne | src/main.rs:128-133 | A description contributes no outcome; a room net contributes its own. |
| Document.ParseSections | src/main.rs:118-171 | The parse succeeds exactly when every net decodes. The rooms are the decoded nets in order. On failure the reason is that of the first net that failed. |
| Document.LastDescriptionWins | src/main.rs:128-131 | A symbol has a description exactly when some section describes it. The text is the body of the last such section. |
| Document.OutcomesAtOrigin | src/main.rs:157-160 | Every decoded room starts at the origin. |
| Document.ParsedRoomsAtOrigin | src/main.rs:157-160 | Every parsed room starts at the origin. |
| Net.Placement | src/main.rs:149-156 | Every face's window lies within the `2·width + 2·depth` by `2·depth + height` bounding box of the cross. |
| Net.CrossLayout | src/main.rs:149-156 | Back, right, front and left sit side by side in one band of height `height` at row `depth`, filling `2·width + 2·depth` columns. Top is directly above the back and floor directly below it, both as wide as the back. No two faces share a cell. |
| Net.MeasuredUnique | src/main.rs:133-148 | A net has at most one size satisfying the measuring rules. |
| Net.FirstMarkerFrom | src/main.rs:136-142 | The first line at or after an index that starts with `+`, or none exactly when no such line exists. |
| Net.Measure | src/main.rs:133-148 | Measuring succeeds exactly when the net has a size meeting the rules: the width is the trimmed length of line 0; the first line after line 0 starting with `+` is line `depth - 1` (so `depth >= 2`); `height + 2·depth` is the line count; the surface area equals the character count. An empty net and a missing depth marker are the errors exactly when they occur. Height underflow happens exactly when the lines are fewer than twice the depth the first marker gives. An area mismatch reports the surface area of that size as expected, with the character count. |
| Net.SliceEach | src/main.rs:149-156 | On success, each face's cells are its window. On failure, the reported face's window leaves the lines and every face before it fits. |
| Net.SliceFaces | src/main.rs:149-171 | Slicing succeeds exactly when every face's window lies inside the lines. The room is then at the origin with the measured size, and each face holds exactly its window. A failure names the first face, in the order top, back, right, front, left, floor, whose window leaves the lines. |
| Net.FaceSlot | src/main.rs:149-156 | Each face has one position in the slicing order top, back, right, front, left, floor. |
| Net.RoomFromFacesCells | src/main.rs:149-171 | Each face of the assembled room holds the cells sliced for it. |
| Net.DecodeNet | src/main.rs:133-171 | A decoded room is at the origin, has the measured size, and its faces are their windows. A measurement error is passed through unchanged. When measuring succeeds, the outcome is that of slicing at the measured size. |
| Net.DecodeAccepts | src/main.rs:133-171 | A net decodes exactly when it has a size meeting the measuring rules and every face's window at that size lies inside its lines. |
| Net.DecodedCellsInsideFaces | src/main.rs:149-156 | Every cell of a decoded face lies inside that face and is never a border or filler. |
| Index.AppendLookup | src/main.rs:187-195 | Appending adds the position to the end of one list and changes no other list. |
| Index.AppendWellFormed | src/main.rs:187-195 | Appending to an existing room keeps every list non-empty and every symbol listed once. |
| Index.RoomsOn | src/main.rs:204-212 | The per-room lists for one symbol and face hold exactly the index's lists for that symbol, face and each room below the bound. |
| Index.Occurrences | src/main.rs:180-186 | At most as many positions as cells. |
| Index.OccurrencesMembers | src/main.rs:180-186 | The positions listed for a symbol are exactly the positions of the cells carrying it. |
| Index.OccurrencesAppend | src/main.rs:180-186 | Scanning two runs of cells lists the first run's positions, then the second's, so scan order is kept. |
| Index.AddCellsLookup | src/main.rs:180-196 | Indexing one face appends that face's occurrences of each symbol, in scan order, to that room's list, and only there. |
| Index.AddCellsWellFormed | src/main.rs:180-196 | Indexing one face keeps the index well formed. |
| Index.AddFacesLookup | src/main.rs:172-197 | Indexing distinct faces appends each face's occurrences to that face's list. |
| Index.AddFacesWellFormed | src/main.rs:172-197 | Indexing faces keeps the index well formed. |
| Index.BuildWellFormed | src/main.rs:172-198 | After indexing every room, each list is non-empty, names an existing room and has its symbol in the order, which lists each symbol once. |
| Index.SliceOrderDistinct | src/main.rs:149-156 | The faces are indexed in an order naming each face exactly once. |
| Index.BuildLookup | src/main.rs:172-198 | The list for one (symbol, face, room) is exactly the symbol's positions on that face of that room, in scan order, and nothing for a room id past the end. |
| Index.BuildSpec | src/main.rs:172-198 | The list for (symbol, face, room) is exactly the symbol's positions on that face of that room, in scan order. Every list present is non-empty and names an existing room. Each symbol appears once in the order. |
| Index.IndexedListsNonEmpty | src/main.rs:187-195 | Every indexed list is non-empty and belongs to an existing room, so the solver's `[0]` access is safe. |
| Shapes.InsertSorted | src/main.rs:219 | Inserting into a sorted list keeps it sorted, and says which element comes first. |
| Shapes.InsertMultiset | src/main.rs:219 | Inserting adds exactly one element. |
| Shapes.Insert | src/main.rs:219 | Inserting adds one position. |
| Shapes.SortPositionsSorts | src/main.rs:219 | Sorting by `(x, y)` yields a sorted permutation of the input. |
| Shapes.SortPositions | src/main.rs:219 | Sorting keeps the length. |
| Shapes.SortedSameHead | src/main.rs:219 | Two sorted permutations of each other start with the same element. |
| Shapes.SortedUnique | src/main.rs:219 | Two sorted permutations of each other are equal. |
| Shapes.SortIsUnique | src/main.rs:219 | Any sorted arrangement of the positions is the one the model's sort produces, so `sort_by` is modelled faithfully whichever algorithm it uses. |
| Shapes.Translate | src/main.rs:245-259 | Moving keeps the length. |
| Shapes.TranslateMoves | src/main.rs:245-259 | Every position is moved by exactly (dx, dy), and moving back by (-dx, -dy) restores the list. |
| Shapes.TranslateTwice | src/main.rs:245-259 | Two moves compose to one move. |
| Shapes.TranslateSorted | src/main.rs:245-259 | Moving keeps a list sorted. |
| Shapes.TranslateCons | src/main.rs:245-259 | Moving a list moves its head and its tail. |
| Shapes.InsertTranslate | src/main.rs:242-259 | Insertion commutes with moving. |
| Shapes.SortTranslate | src/main.rs:242-259 | Sorting commutes with moving. |
| Shapes.Normalize | src/main.rs:245-259 | Normalising keeps the length and puts `(0, 0)` first. |
| Shapes.NormalizeRoundTrip | src/main.rs:245-259 | Moving the normalised list back by the first position restores the list. |
| Shapes.SortedHeadIsLeast | src/main.rs:242-249 | The first element of a sorted rearrangement of a list is an element of the list at or below all others. |
| Shapes.NormalizedNonNegative | src/main.rs:245-259 | Normalising a sorted list leaves every `x >= 0`. |
| Shapes.ShapeSpec | src/main.rs:219-259 | After sorting and normalising, a list keeps its length, starts at `(0, 0)`, is sorted and has every `x >= 0`. Its anchor (the first sorted position) is a position of the list at or below all others. Moving the shape back by the anchor gives the sorted list. |
| Shapes.ShapeTranslationInvariant | src/main.rs:219-259 | Moving a pattern within a face does not change its shape. |
| Shapes.AnchorTranslate | src/main.rs:242-249 | Moving a list moves its first sorted position by the same amount. |
| Shapes.SameShapeTranslates | src/main.rs:242-262 | Equal shapes mean the sorted lists differ by the move between their anchors. |
| Shapes.TranslatesSameShape | src/main.rs:242-262 | Sorted lists that differ by a move have equal shapes. |
| Shapes.MirrorCoord | src/main.rs:224-240 | `D - v - 1` maps `[0, D)` onto `[0, D)` and is undone by itself. |
| Shapes.Mirror | src/main.rs:224-240 | Mirroring keeps the length. Each position keeps its other coordinate, and its mirrored coordinate plus the original one is `extent - 1`. |
| Shapes.MirrorInvolution | src/main.rs:224-240 | Mirroring twice in the same extent gives the list back. |
| Shapes.MirrorInRange | src/main.rs:224-240 | A position inside `[0, D)` on the mirrored axis stays inside it, and the other coordinate is kept. |
| Shapes.MirrorExtentShift | src/main.rs:224-240 | Mirroring in another extent only moves the result along the mirrored axis. |
| Shapes.MirrorShapeIgnoresExtent | src/main.rs:224-243 | The shape of a mirrored face does not depend on the extent. |
| Layout.Placed | src/main.rs:264-293 | Placing changes only the position: size and faces are kept. |
| Layout.PlacedSpec | src/main.rs:263-292 | A placed room keeps its size and faces. It touches the other room along the pairing's axis: its centre is half the summed extents away. It is shifted in the face plane by the pattern offset. |
| Layout.PlacedIgnoresPosition | src/main.rs:269-274 | Placement overwrites the position, so the room's previous position is irrelevant. |
| Layout.MirrorExtentOfPairing | src/main.rs:204-240 | Left/right mirror in the other room's depth and front/back in its width. Both are the column count of the paired face. Top/floor mirror in its height, while that face has `depth` rows. |
| Layout.MatchIgnoresExtent | src/main.rs:233-239 | Whether faces match does not depend on the mirror extent. Another top/floor extent moves the mirrored anchor by exactly the difference of the extents. |
| Layout.MatchOffsetMoves | src/main.rs:245-262 | On a match, the offset moves the mirrored, sorted other pattern exactly onto the current one. |
| Layout.MoveMeansMatch | src/main.rs:245-262 | Any move of the mirrored, sorted other pattern onto the current one means the faces match. |
| Layout.TryMatch | src/main.rs:218-294 | Only room `c` may change, and its size and faces never do. Without a match the rooms are unchanged. With a match, room `c` touches room `o` on the pairing's side and is aligned with it by the pattern offset. |
| Layout.LeftMatchPlacesRight | src/main.rs:263-275 | A left-to-right match sets `c.x = o.x + c.width/2 + o.width/2`. |
| Layout.PlacedSpecIf | src/main.rs:263-292 | `PlacedSpec`, stated for any pairing. |
| Layout.MatchOthers | src/main.rs:215-296 | Only room `c` may change, and its size and faces never do. |
| Layout.HitsFrame | src/main.rs:216-217 | Only the rooms below `c` decide which rooms match. |
| Layout.LastIn | src/main.rs:215-296 | The largest member in a range, or none exactly when the range has no member. |
| Layout.LastInExtend | src/main.rs:215-296 | Widening the range downwards matters only when nothing above is a member. |
| Layout.TryOneOutcome | src/main.rs:216-294 | Trying one other room places `c` against it exactly when it matches. |
| Layout.OutcomeOverrides | src/main.rs:269-274 | A later placement replaces whatever an earlier step did to room `c`. |
| Layout.MatchOthersLastWins | src/main.rs:215-296 | Among the rooms `o < c`, the last one that matches decides where `c` goes. With no match, nothing changes. |
| Layout.HitsShapeFrame | src/main.rs:216-243 | Which rooms below `c` match depends only on their sizes and faces, not on where they are. |
| Layout.OffsetShapeFrame | src/main.rs:245-262 | The pattern offset depends only on the other room's size and faces. |
| Layout.MatchOthersSpec | src/main.rs:215-296 | With no matching room below `c`, nothing changes. Otherwise room `c` ends flush against and aligned with the last room below it that matches, which itself stays put. |
| Layout.MatchCurrents | src/main.rs:213-298 | Sizes and faces are kept. Room 0, rooms already passed and rooms that do not list the symbol on the pairing's face are unchanged. |
| Layout.TryCurrent | src/main.rs:214-297 | Trying one current room changes at most that room, and never its size or faces. |
| Layout.CurrentsSpecAbove | src/main.rs:213-298 | Rooms above `c` see the same matches and offsets whether or not room `c` moved. |
| Layout.CurrentsSpecHere | src/main.rs:213-298 | Room `c` stays put when no room below it matches, and otherwise ends flush against and aligned with the last one that does. |
| Layout.CurrentsStep | src/main.rs:213-298 | If the later rooms meet their specification after room `c` is tried, every room from `c` on meets it. |
| Layout.MatchCurrentsSpec | src/main.rs:213-298 | For one symbol and pairing, a room with no matching room below it keeps its position. Every room with one ends flush against and aligned with the last room below it that matches, and later steps do not undo that. |
| Layout.RoomsOnFit | src/main.rs:245-255 | The per-room lists taken from a well-formed index are non-empty and name existing rooms. |
| Layout.MatchPairings | src/main.rs:204-299 | Sizes and faces are kept. Room 0 and rooms that list the symbol on no face are unchanged. |
| Layout.SymbolHitShapeFrame | src/main.rs:213-243 | Whether a room has a match for a symbol and pairing depends only on sizes and faces, so the solver's moves never change it. |
| Layout.NoHitForShapeFrame | src/main.rs:205-243 | The same for all six pairings at once. |
| Layout.PairingKeeps | src/main.rs:213-298 | One pairing leaves alone a room with no matching room below it. |
| Layout.PairingsStepKeeps | src/main.rs:205-299 | A room with no match for the symbol under pairings `k..` keeps its position through pairing `k` and stays without a match for the later ones. |
| Layout.MatchPairingsKeeps | src/main.rs:205-299 | The pairings leave alone a room that has no match for the symbol under any of them. |
| Layout.MatchSymbolsKeeps | src/main.rs:204-300 | The symbols leave alone a room that has no match for any of them. |
| Layout.MatchSymbols | src/main.rs:204-300 | Sizes and faces are kept. Room 0 and rooms that carry no indexed symbol are unchanged. |
| Layout.Solve | src/main.rs:203-301 | After both passes the room count, every size and every face are unchanged. Room 0 never moves. A room that, for no symbol and no pairing, has a room below it with a matching pattern does not move either. |
| Layout.TwoPassesKeep | src/main.rs:203-301 | Both passes leave alone a room with no match for any symbol. |
| Layout.UnlistedUnmatched | src/main.rs:213-217 | A room no symbol lists has no match, so the unmatched rooms include the rooms without symbols. |
| Pipeline.Run | src/main.rs:118-301 | The run fails exactly when parsing fails, with the parse error. Otherwise the descriptions, the room count and every room's size and faces are those parsed. Room 0 is at the origin, and so is every room that has no matching room below it for any symbol and pairing. |

## Left out

- Program start-up, window and browser setup, command-line handling and file input (src/main.rs:20-46, 70-88). The text is a parameter of `Pipeline.Run`.
- Rendering: meshes, materials, transforms and the floating-point scaling of object placement (src/main.rs:303-522). This is graphics driven through the engine.
- The hover handlers and `char_to_color`, which only feed the renderer (src/main.rs:525-561).
- Debug output with `println!`.
- `HashMap` iteration order:
  - The solver visits symbols in order of first insertion into the index.
  - It visits current and other rooms in ascending id order.
  - The source's order is unspecified, and the outcome can depend on it when several rooms match. The model fixes one order and proves nothing about order independence or convergence of the two passes.
- Byte lengths: Rust's `len()` and string slicing count UTF-8 bytes. The model counts characters, which is the same for ASCII nets. A multi-byte one-character heading is a description in the model, whereas the source treats it as a room net. The source panics on a slice that splits a character; the model has no such case.
- `usize` arithmetic: the height underflow is modelled as an error, as in a debug build. A release build would wrap around instead. Other `usize` and `isize` overflow is not modelled.
- `f32` rounding: coordinates are exact reals.
- Index building happens after all sections are parsed, while the source interleaves it with parsing. A failing net aborts the run either way, so the index of a successful parse is the same.
- Layout.MatchOthers: the declarative "last match wins" is stated by `Layout.MatchOthersLastWins` and `Layout.MatchOthersSpec`, not on the function itself.
- Layout.MatchCurrents, Layout.MatchPairings, Layout.MatchSymbols: their own contracts state what is kept. Which rooms stay and where a moved room ends are stated by `Layout.MatchCurrentsSpec`, `Layout.MatchPairingsKeeps` and `Layout.MatchSymbolsKeeps`.
- Layout.Solve: a room that has a match can be moved again by a later symbol, pairing or pass, so nothing is stated about its final position beyond its size and faces.
- Text.Lines, Text.RemoveLineBreaks: their own contracts state what is removed. The round trip, the order and the counts are stated by `Text.LinesRoundTrip`, `Text.RemoveLineBreaksAppend` and `Text.RemoveLineBreaksCounts`.
- Index.Occurrences: its own contract states only the length bound. Membership and order are stated by `Index.OccurrencesMembers` and `Index.OccurrencesAppend`.
- Document.NetOutcomes: its own contract states only the length bound. What it collects, and in what order, is stated by `Document.NetOutcomesAppend` and `Document.NetOutcomesOne`.
- Document.Heading, Document.Body: their contracts state the trimming and the one-line case, not which line of the section each comes from.
- Shapes.Insert, Shapes.SortPositions: their own contracts state only the length. Sortedness and permutation are stated by `Shapes.InsertSorted`, `Shapes.InsertMultiset` and `Shapes.SortPositionsSorts`.
- Shapes.Translate, Shapes.Normalize: their own contracts state only the length and, for `Normalize`, the origin head. The pointwise move and the round trip are stated by `Shapes.TranslateMoves` and `Shapes.NormalizeRoundTrip`.
