# MinimapIcons — a Dafny model of the decision logic

The MinimapIcons plugin draws markers for world entities on the game's small minimap
or large map every frame. This project models the plugin's discrete decision logic as
pure Dafny functions and methods over immutable snapshots. Host objects, floating-point
geometry and the graphics back end are replaced by plain records.

- **Alert-config loader** (`AlertConfig`). `LoadConfig` reads lines of the form
  `path;<unused>;width,height` and skips lines that start with `#`. The model works over
  the file's sequence of lines and returns either the path-to-size table or the first
  line that makes .NET throw.
  - `Text` holds the .NET string operations the loader uses: `Split(char)`, `Trim()`
    and `StartsWith`. It also holds `Contains`, which the not-valid pass uses on entity
    paths.
  - `Numbers` holds `int.Parse`.
- **Mode selection** (`ViewState`). `TickLogic` decides between the small map, the large
  map and "no map". The nullable `bool? largeMap` becomes a three-valued `Mode`.
- **Render** (`IconOrder`, `IconPasses`).
  - A per-frame gate decides whether anything is drawn.
  - The valid pass takes the icons of valid entities, ordered by priority, and filters
    them.
  - The optional not-valid pass walks all entities in list order, without sorting, and
    draws, under its own filter, those whose `IsValid` is false.
  - Each drawn icon issues a main image, a decoration when the icon is hidden, and a
    label when it has text.
  - Draw calls are abstract `MainImage(id)`, `Decoration(id)` and `Label(id, text)`
    commands. Screen positions are opaque.

Modules: `Wrappers` (Option/Result), `Text`, `Numbers`, `AlertConfig` (plus
`AlertConfigExamples`), `ViewState`, `Snapshot` (the records), `IconOrder`,
`IconPasses`.

Three points about the code:
- The candidate list is ordered by `OrderByF` from JM.LinqFaster. Its tie order is not
  visible, so the model claims only that the order is ascending and a permutation. It
  does not claim stability.
- A malformed config line aborts the whole `LoadConfig`, not just its own entry.
- The `modIcons` table is never consulted by the drawing code in this file.

## Model

| member | source | states |
|---|---|---|
| Text.Split | MinimapIcons.cs:80 | `Split(char)` gives one field more than there are separators. No field contains the separator. Joining the fields with it gives back the text. |
| Text.SplitJoin | MinimapIcons.cs:80-81 | Splitting inverts joining whenever no part contains the separator. |
| Text.TrimBy | MinimapIcons.cs:81 | `Trim()` returns the inner slice of the text. Only space characters are dropped, and only at the two ends. The result neither starts nor ends with one. |
| Text.Contains | MinimapIcons.cs:223 | The path test is true exactly when the needle occurs at some position of the path. |
| Numbers.ParseIntMeaning | MinimapIcons.cs:82 | `int.Parse` succeeds with `v` exactly when the text is an optional sign and digits of value `v`, with only white space around them, and `v` fits in 32 bits. Such text with a value outside the range overflows. |
| Numbers.ParseIntFailures | MinimapIcons.cs:82 | `int.Parse` overflows exactly when the text is a signed digit string, with only white space around it, whose value lies outside the 32-bit range. It reports every other text, and only such text, as not a number. |
| Numbers.ParseIntPadded | MinimapIcons.cs:82 | White space around the number, a `+` sign and leading zeros do not change the value read. |
| Numbers.ParseFormatRoundTrip | MinimapIcons.cs:82 | Parsing the decimal rendering of an in-range integer gives it back. Outside the 32-bit range the parse reports overflow. |
| AlertConfig.ParseSize | MinimapIcons.cs:81-82 | The size field is trimmed and split on `,`. It gives a size exactly when it has at least two components and both parse. The size is then the two parsed numbers; further components are ignored. A first component that does not parse is reported before a missing second one. When the first parses and a second is present but does not parse, its error is reported. |
| AlertConfig.ParseLine | MinimapIcons.cs:79-82 | A line is a comment exactly when it starts with `#`. It fails for too few fields exactly when it is not a comment and has fewer than two `;`. Otherwise it is an entry exactly when its third field gives a size. The entry is that size under the untrimmed text before the first `;`, and a failure carries the size field's error. |
| AlertConfig.SizeFieldComponents | MinimapIcons.cs:81 | Trimming and splitting a size field drops only the white space around it and keeps every component as written. |
| AlertConfig.ParseLineFields | MinimapIcons.cs:79-82 | A line `key;note;size;…` whose key does not start with `#` is read from its third field alone. Further `;` fields are ignored. |
| AlertConfig.ParseLineGeneral | MinimapIcons.cs:79-82 | A line with padded components and further fields is the entry of its first two numbers. It is malformed exactly when one of them does not parse, and the first number's error comes first. |
| AlertConfig.Apply | MinimapIcons.cs:77-83 | The loop succeeds exactly when no line is malformed. On failure it reports the first malformed line and its error. On success a path is in the table exactly when some line is an entry for it. |
| AlertConfig.Load | MinimapIcons.cs:73-84 | The same three facts, stated per input line of the file. |
| AlertConfig.LastEntryWins | MinimapIcons.cs:82 | The dictionary assignment overwrites: a path's size comes from the last entry naming it. |
| AlertConfig.LoadLastLineWins | MinimapIcons.cs:77-83 | Over the file's lines, a path's size comes from the last line naming it. |
| AlertConfig.FormatLineRoundTrip | MinimapIcons.cs:79-82 | A line `key;note;w,h` reads back as an entry with that key and size. This holds whenever key and note hold no `;`, the key does not start with `#`, and `w` and `h` fit in 32 bits. |
| AlertConfigExamples.SizeLineExample | MinimapIcons.cs:79-82 | `Metadata/Foo;ignored;32,32` yields size (32, 32) under `Metadata/Foo`. |
| AlertConfigExamples.CommentLineExample | MinimapIcons.cs:79 | A `#` line yields no entry. |
| AlertConfigExamples.OverwriteExample | MinimapIcons.cs:77-83 | A later entry for the same path replaces the earlier size. A malformed line fails the load at its own index. |
| ViewState.SelectMode | MinimapIcons.cs:99-113 | The small map is chosen exactly when it is visible, whatever the large map does. The large map is chosen exactly when only it is visible. The mode is unavailable exactly when neither is visible. |
| ViewState.LargeMapFlagRoundTrip | MinimapIcons.cs:39 | The three-valued mode and the nullable `largeMap` flag convert into each other without loss. |
| IconOrder.CandidatesSpec | MinimapIcons.cs:139-140 | The candidates are exactly the entities with a non-null icon, each as often as in the list, each paired with its own icon. |
| IconOrder.InsertSorted | MinimapIcons.cs:140 | Inserting into a priority-ordered list keeps it ordered. |
| IconOrder.InsertPermutes | MinimapIcons.cs:140 | Inserting adds exactly the new element and loses none. |
| IconOrder.SortByPrioritySpec | MinimapIcons.cs:140-141 | The ordered list is in ascending priority and is a permutation of its input. |
| IconOrder.CandidateOrder | MinimapIcons.cs:139-141 | The valid pass visits exactly the entities with icons, each as often as listed, in ascending priority. |
| IconPasses.EmitShape | MinimapIcons.cs:182-200 | One drawn icon issues exactly one main image, and it comes first. A decoration follows exactly when the icon is hidden. A label with the icon's text comes last, exactly when the text is non-empty. All calls name the icon's entity. |
| IconPasses.IconCallsDetermined | MinimapIcons.cs:182-200 | Those properties fix the calls of one icon completely. |
| IconPasses.DrawIcon | MinimapIcons.cs:182-200 | The statements that draw one icon issue one main image first, a decoration exactly when it is hidden, and its label last exactly when it has text, all for the icon's entity. |
| IconPasses.EmitAllNamesIcons | MinimapIcons.cs:144-201 | Every call a pass issues names one of the icons it drew. |
| IconPasses.EmitAllMainImages | MinimapIcons.cs:182-186 | The main-image calls name the drawn icons one by one, in drawing order. |
| IconPasses.DrawnValidMembers | MinimapIcons.cs:144-180 | The valid pass draws a candidate exactly when every check passes: entity set, not a world item, `Show()`, the monster setting, the in-game-icon rule, a Render component and an available map. |
| IconPasses.DrawnValidSorted | MinimapIcons.cs:140-180 | Skipping candidates keeps the priority order of the ones drawn. |
| IconPasses.DrawnNotValidMembers | MinimapIcons.cs:205-242 | The not-valid pass draws an entity exactly when all of these hold: not a world item, has an icon, not valid, `Show()`, monster setting allows it, the narrower in-game-icon rule allows it, and a map is available. |
| IconPasses.FirstFault | MinimapIcons.cs:210-212 | Finds the first entity whose icon has no entity reference and so throws in the not-valid pass. No earlier entity throws. |
| IconPasses.ValidPass | MinimapIcons.cs:144-201 | The loop with its early `continue`s issues exactly the calls of the drawn candidates, in order. |
| IconPasses.NotValidPass | MinimapIcons.cs:203-264 | The not-valid loop issues exactly the calls of the drawn entities before the first throwing one. |
| IconPasses.UnavailableSelectsNothing | MinimapIcons.cs:167-180 | With no map visible, neither pass selects any icon. |
| IconPasses.ValidPassSelects | MinimapIcons.cs:139-162 | An entity of the valid list that has an icon is drawn by the valid pass exactly when the pass's checks accept it. |
| IconPasses.ValidPassOrder | MinimapIcons.cs:139-186 | The valid pass issues one main image per drawn icon, in ascending priority. |
| IconPasses.NotValidRuleIsNarrower | MinimapIcons.cs:219-224 | The not-valid in-game-icon exclusion implies the valid one. So a not-valid entity that the valid rules would draw is drawn. |
| IconPasses.Render | MinimapIcons.cs:119-265 | No calls when the gate is closed, a host object is missing or no map is visible. Otherwise the valid pass's calls, followed by the not-valid pass's calls when that pass is enabled. |

## Left out

- Screen geometry. Left out:
  - the projection `MapIcon.DeltaInWorldToMinimapDelta`, a library function not shown;
  - `diag`, `scale`, `k` and the screen centre;
  - the `DrawRect`/`Inflate` rectangle arithmetic;
  - the text offset `ZForText`.

  All of these are floating point or unseen SharpDX semantics. Positions and decoration
  sizes are therefore not modelled, and the draw commands carry no coordinates.
- Texture file names, UV rectangles and colours passed to `Graphics.DrawImage`, and the
  `FontAlign` of `DrawText`.
- An icon's `MainTexture` is assumed to be set. In the source a `null` texture throws at
  line 183 (valid pass) or line 245 (not-valid pass) and ends the frame's drawing; the
  model does not represent that case.
- `TimeCache` caching and the optional worker-thread dispatch in `Tick`. These are timing
  and concurrency. `Render` is modelled as reading one consistent mode, although in the
  source `largeMap` may change between reads while a tick runs on another thread.
- Reading the file (`File.ReadAllLines`), image loading, and the `OnLoad`/`Initialise`
  lifecycle. The loader takes the lines as input.
- The `ignoreEntites` list, which is never read. The `modIcons` table is filled but never
  read by the drawing code shown.
- A `Render` call before the first `TickLogic` (when `ingameStateIngameUi` is still
  `null`) is not modelled.
- Host access (`GetComponent`, `GetHudComponent`, the entity list wrapper) becomes
  snapshot fields. `Show()`, `Hidden()` and the Render-component lookup are each read once
  per frame. An icon's `Entity`, when set, is the entity that carries the icon, so the
  line-212 world-item re-check repeats the line-207 check and is not written out.
- The line-146 `null` check is not written out: the `icon != null` filter at line 140
  has already dropped every `null` icon.
- A `null` icon text is treated as the empty string, as `string.IsNullOrEmpty` does.
- IconPasses.NotValidPass: a `NullReferenceException` at line 212 is modelled as the end
  of the frame's drawing. Calls issued before it stand. The host's handling of the
  exception is not visible.
- Numbers.ParseInt: approximates .NET `int.Parse`. It accepts optional surrounding white
  space (U+0009–U+000D, U+0020), an optional `+` or `-`, and decimal digits, within the
  32-bit range. Culture-specific sign symbols and trailing NUL characters are not
  modelled.
- AlertConfig.IsComment: an ordinal prefix test. The source's `StartsWith("#")` is
  culture-sensitive, and ignorable characters before the `#` are not modelled.
- AlertConfig.Load: on failure the model returns only the error. In the source the
  exception leaves the entries of earlier lines in `modIcons`, but `OnLoad` aborts.
- IconOrder.SortByPrioritySpec: the model sorts stably. The tie order of `OrderByF` is not
  visible, so only ascending priority and permutation are claimed about the source.
