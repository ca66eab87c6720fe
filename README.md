# Kit Locator: a Dafny model of its data pipeline and selection logic

Kit Locator is a small web application. It reads a master workbook of kit
lists, one sheet per location. The user picks a location and sees the items
packed there, each with its quantity and its case number, and can filter
the items by name. This project models the logic behind that screen in
`extras.py`:

- **The smart sort key** (`smart_sort_key`). Every case cell is classified
  into a `(bucket, number, text)` key:
  - bucket 1 holds numbers, ordered by value;
  - bucket 2 holds other text, ordered as strings;
  - bucket 3 holds blanks and the junk markers `nan`, `none`, `-` and `nat`, all tied.
- **Loading a workbook** (`load_data`). Each sheet is a grid of cells read
  without a header. The loader:
  - takes as header the first of the first 20 rows that holds both "Item" and "Packed in Case #";
  - requires the columns "Item", "Total Quantity" and "Packed in Case #";
  - drops rows without an item;
  - coerces the quantity to an integer, 0 when it is missing or not a number;
  - sorts the rows by case key and then item;
  - keeps the three columns.

  A sheet that fails any step is skipped (`Result<KitTable, Skip>`). The
  loaded sheets form an insertion-ordered mapping from sheet name to table.
- **Locations**. Each sheet name gives a location key: the stripped text
  after its last hyphen, or the whole name if it has no hyphen.
  - `loc_map` maps each key to its sheet; when two names give the same key, the later one wins.
  - `locations` is the sorted list of keys.
  - At startup the remembered location is restored if it is still offered. Otherwise the first location is chosen, or none if there are no locations.
- **The view**. The search keeps the rows whose item contains the search
  text, ignoring case, in table order; an empty search keeps the whole
  table. The case label of a tile shows "-" for the missing and junk values.
- **The application state**. The class `Viewer.App` has one field per
  global of the program. Its methods model the startup sequence,
  `on_location_change` and `handle_upload`. `Valid()` states that the key
  map and the catalogue are those of the loaded sheets.

Modules:

- `Wrappers` (`wrappers.dfy`): `Option` and `Result`.
- `Cells` (`cells.dfy`): cells, and `str`, `strip`, `lower`, string order and substring search.
- `Numbers` (`numbers.dfy`): decimal parsing, truncation, the quantity coercion and integer rendering.
- `Sorting` (`sorting.dfy`): sorting by a strict order, and the uniqueness of a sorted arrangement.
- `SortKeys` (`sortkeys.dfy`): the smart sort key.
- `Loader` (`loader.dfy`): header detection, the per-sheet pipeline, the loaded-sheets mapping, `load_data`.
- `Locations` (`locations.dfy`): location keys, `loc_map`, `locations` and the startup choice.
- `Viewer` (`viewer.dfy`): the search, the tiles and the application state.

How the source's behaviour is represented:

- A cell is `Missing` (a NaN) or `Value(text)`, where `text` is the value's `str()` form.
- `float()` is modelled on decimals: an optional sign, then digits with at most one point.
- `strip()` removes ASCII whitespace and the separators 0x1C to 0x1F, and `lower()` lowers ASCII letters.
- Sorting is stable, so rows that tie on (key, item) keep their sheet order. The model therefore sorts by (key, item, row position). That is a strict total order, so the sorted table is unique (`NormaliseDetermined`).

## Model

| member | source | states |
|---|---|---|
| Cells.Trim | extras.py:63 | the stripped text has no whitespace at either end; it is empty exactly when the input is all whitespace; it holds only characters of the input |
| Cells.TrimSurrounded | extras.py:63 | stripping text surrounded by whitespace yields the text itself |
| Cells.TrimSplit | extras.py:63 | the input is whitespace, then its stripped text, then whitespace: stripping removes the outer whitespace and nothing else |
| Cells.Lower | extras.py:66 | the lowered string has the same length; no capital letter is left; every other character is unchanged, and each capital becomes its small letter |
| Cells.LowerIdempotent | extras.py:66 | lowering lowered text changes nothing |
| Cells.StrLessIrreflexive | extras.py:128 | Python string order is irreflexive |
| Cells.StrLessTransitive | extras.py:128 | Python string order is transitive |
| Cells.StrLessTotal | extras.py:128 | any two different strings are ordered one way or the other |
| Cells.ContainsIff | extras.py:154 | the substring test holds exactly when the needle occurs at some position of the text |
| Numbers.ParseDecimal | extras.py:71 | whatever parses is non-empty, and a value without a leading '-' is not negative |
| Numbers.ParseNegated | extras.py:71 | an unsigned decimal parses exactly when its '-' negation does, to the opposite value |
| Numbers.ParsedShape | extras.py:71 | text that `float` accepts has only digits and '.' after its first character |
| Numbers.NotANumber | extras.py:70-75 | text with any other character after its first position is rejected by `float` |
| Numbers.IntRoundTrip | extras.py:71 | parsing the decimal rendering of any integer gives that integer back |
| Numbers.Truncate | extras.py:102 | `astype(int)` truncates toward zero: the result lies within one of the value, on the zero side |
| Numbers.Quantity | extras.py:102 | a missing cell or a non-number has quantity 0; a number is truncated toward zero |
| Numbers.QuantityOfInteger | extras.py:102 | a quantity cell holding any integer, padded with whitespace or not, is coerced to that integer |
| Numbers.WordQuantity | extras.py:102 | a quantity cell with a letter or other non-numeric character after its first position is coerced to 0 |
| Sorting.InsertionSort | extras.py:106 | the sorted sequence is a permutation of its input |
| Sorting.SortSorted | extras.py:106 | sorting pairwise comparable entries by a strict order yields a strictly sorted sequence |
| Sorting.SortedUnique | extras.py:106 | two strictly sorted permutations of the same entries are equal |
| SortKeys.SmartSortKey | extras.py:58-75 | bucket 3, with key (3, 0, ""), exactly for the missing, blank and junk cells; bucket 1, with the parsed value, exactly for the other cells whose stripped text parses; bucket 2 with the stripped text otherwise; the text part is non-empty only in bucket 2 |
| SortKeys.KeyLessIrreflexive | extras.py:106 | key order (bucket, then number, then text) is irreflexive |
| SortKeys.KeyLessTransitive | extras.py:106 | key order is transitive |
| SortKeys.KeyLessTotal | extras.py:106 | any two different keys are ordered |
| SortKeys.BucketsInOrder | extras.py:67-75 | every number sorts before every text, and every text before every blank |
| SortKeys.NumbersByValue | extras.py:71-72 | numbers order by their numeric value, in both directions |
| SortKeys.TextByString | extras.py:73-75 | text orders by its stripped string, in both directions |
| SortKeys.BlanksTie | extras.py:66-67 | all blanks and junk markers get the same key |
| SortKeys.DateLikeIsText | extras.py:70-75 | text with a character other than a digit or '.' after its first position, such as a date, is text keyed by its stripped string |
| SortKeys.NumberKey | extras.py:69-72 | a label that begins and ends with a digit and parses as x gets (1, x, "") |
| SortKeys.WordKey | extras.py:73-75 | a label with non-blank ends that is neither junk nor a number gets (2, 0, label) |
| SortKeys.NotJunk | extras.py:66 | a label whose first character is neither n, N nor '-' is not a junk marker |
| SortKeys.DashKey | extras.py:66-67 | "-" and "" get the blank key |
| SortKeys.SmartSortExample | extras.py:58-75 | the labels "1.5", "2", "10", "A" order in that sequence, then "-" and "" tied |
| Loader.HasLabelIff | extras.py:89-90 | a row holds a heading exactly when one of its stripped cells equals it |
| Loader.HeaderRow | extras.py:87-92 | the header is the first row among the first 20 holding both "Item" and "Packed in Case #"; none when no such row exists |
| Loader.FindHeader | extras.py:87-92 | the early-exit scan returns exactly that header row |
| Loader.HeaderNamesLabel | extras.py:95-97 | a name is a column name exactly when a cell of the header row carries it, or it is "nan" and the header row is shorter than the sheet |
| Loader.HeaderNamesOfHeader | extras.py:87-97 | the header row found by the scan names the item and case columns |
| Loader.Position | extras.py:95-100 | a column lookup returns the first column with that name |
| Loader.SheetLayout | extras.py:83-100 | a layout exists exactly when there is a header row naming each required column once; then the layout's columns carry the required names; without a header the sheet is empty or lacks the header |
| Loader.EmptyHasNoHeader | extras.py:83 | a sheet without cells has no header row |
| Loader.Survivors | extras.py:96-102 | the candidate rows are exactly the rows after the header that name an item, each with its coerced quantity, in sheet order |
| Loader.RowLessIsStrictOrder | extras.py:105-106 | the table order (case key, then item, then row position) is irreflexive and transitive |
| Loader.RowLessTotal | extras.py:105-106 | any two different rows are ordered |
| Loader.Normalise | extras.py:85-109 | a sheet yields a table exactly when it has a header row that names each required column once; without a header row it is skipped as empty or headerless |
| Loader.NormaliseRows | extras.py:101-109 | the table is a permutation of the candidate rows, strictly sorted by (case key, item, position) |
| Loader.NormaliseMembers | extras.py:96-102 | a row is in the table exactly when it lies after the header and names an item; it carries that row's coerced quantity |
| Loader.SortRows | extras.py:105-107 | rows at distinct positions sort into the table order |
| Loader.NormaliseDetermined | extras.py:105-107 | any sorted permutation of the candidate rows is the table: ties included, the result is determined |
| Loader.NamesIff | extras.py:127 | a name is listed exactly when some loaded entry carries it |
| Loader.Lookup | extras.py:144 | `get` finds nothing exactly for an absent name; otherwise it returns that name's table |
| Loader.Store | extras.py:109 | storing keeps names distinct; a new name is appended and a known one keeps its place |
| Loader.StoreLookup | extras.py:109 | after storing, the name maps to the new table and every other name to its old one |
| Loader.LoadSheets | extras.py:82-112 | the loaded sheets have distinct names |
| Loader.LoadFile | extras.py:114-118 | a missing or unreadable file loads as no sheets |
| Loader.LoadData | extras.py:77-118 | the sheet-by-sheet loop, with its skips, computes the loaded sheets of the file |
| Loader.LoadedNames | extras.py:82-109 | the loaded names are the names of the sheets that yield a table, in workbook order |
| Loader.LoadedSheet | extras.py:82-112 | each sheet is loaded under its name with its own table if it yields one, and is absent otherwise |
| Locations.AfterLastHyphen | extras.py:127 | the result is a suffix of the name with no hyphen, preceded by a hyphen unless it is the whole name |
| Locations.LocationKey | extras.py:127 | a key has no hyphen, and a name without a hyphen is its own key |
| Locations.KeyOfHyphenatedName | extras.py:127 | the key of a hyphenated name is the stripped text after a hyphen that has no hyphen after it |
| Locations.LocMap | extras.py:127 | every key maps to a sheet name giving that key; every name's key is in the map |
| Locations.LaterNameWins | extras.py:127 | a key maps to the last name that gives it |
| Locations.DistinctKeys | extras.py:128 | the map's keys, each once |
| Locations.Catalogue | extras.py:128 | `locations` holds exactly the keys of the map, as many as there are distinct keys |
| Locations.CatalogueSpec | extras.py:128 | `locations` is strictly sorted, holds exactly the map's keys, and is the only such list |
| Locations.StartupChoice | extras.py:130-140 | the choice is the remembered location when it is non-empty and offered; otherwise, empty or not offered, it is the first location; with no locations it is none |
| Locations.RememberedLocationRestored | extras.py:135-140 | a location that is offered and saved is chosen again at the next start |
| Viewer.MatchesIgnoresCase | extras.py:154 | a row matches a search text exactly when it matches the lowered text |
| Viewer.FilterRows | extras.py:154 | the kept rows are exactly the table rows whose item contains the text, ignoring case; they are a subsequence of the table |
| Viewer.Search | extras.py:153-156 | an empty search keeps the table; otherwise it keeps exactly the matching rows, as a subsequence |
| Viewer.SubsequenceSorted | extras.py:153-156 | leaving rows out of a sorted table keeps it sorted |
| Viewer.SearchKeepsOrder | extras.py:153-156 | search results stay in the table order |
| Viewer.CaseText | extras.py:167-168 | the label is never empty; it is "-" exactly when the case is missing, is "-", or lowers to "nan", "none", "" or "nat"; otherwise it is the value's text |
| Viewer.DashIffBlank | extras.py:167-168 | for a stripped case value, the label is "-" exactly when the sort key puts the row among the blanks |
| Viewer.BlankIsDash | extras.py:167-168 | a stripped case value keyed as blank shows "-" |
| Viewer.LowerIsDash | extras.py:167 | only "-" lowers to "-" |
| Viewer.DashSortsLast | extras.py:167-168 | a row shown with case "-" sorts among the blanks |
| Viewer.Render | extras.py:150-168 | no table shows nothing; no matching rows shows the "no items" note; otherwise one tile per matching row, in order, with a non-empty case label |
| Viewer.CatalogueResolves | extras.py:127-144 | every offered location is in the key map, and its sheet is loaded |
| Viewer.DerivedConsistent | extras.py:127-128 | the derived map and catalogue satisfy the application invariant |
| Viewer.ChoiceResolves | extras.py:139-144 | a non-empty startup choice is in the key map, and its sheet is loaded |
| Viewer.StartupState | extras.py:120-144 | startup loads the file, derives a consistent map and catalogue, and picks the choice; a non-empty choice has its table, and none is shown for an empty one |
| Viewer.EmptyKeyShowsNoTable | extras.py:139-144 | when the empty key is offered and nothing else is remembered, the empty key is chosen even though its sheet is loaded |
| Viewer.App.Startup | extras.py:120-144 | the state after startup: the invariant holds; the sheets, catalogue and choice are as above; the table shown is the choice's; the selector shows the choice and is enabled exactly when there are locations (lines 242-249) |
| Viewer.App.Reload | extras.py:201-203 | the sheets, key map and catalogue are replaced by those of the new sheets, and the invariant holds |
| Viewer.App.OnLocationChange | extras.py:187-194 | a non-empty key shows its sheet's table, is saved and clears the search; otherwise only the selector value changes |
| Viewer.App.HandleUpload | extras.py:196-216 | the file is reloaded with the invariant kept; with locations, the first is selected and shown; with none, the table is cleared, the selector disabled and the last location left as it was; when the selector moves to a non-empty first location, the change handler saves it and clears the search, and otherwise the preference and the search stay |
| Viewer.App.SetSelection | extras.py:205-211 | setting the selector to a new value runs the change handler; setting it to its current value changes nothing |
| Viewer.App.SelectFirst | extras.py:205-216 | the selector is set to the first location or to none, then the first location's table is shown or the table cleared; the preference and search change exactly as the change handler makes them |
| Viewer.App.ShowFirst | extras.py:205-216 | the first location is selected and its loaded table shown, or with no locations the table is cleared and the selector disabled |
| Viewer.App.SetSearchText | extras.py:255-258 | the search box holds the new text |
| Viewer.App.Shown | extras.py:146-185 | nothing is shown exactly when no table is current; with an empty search, a non-empty table shows one tile per row |

## Left out

- The page layout, the styling and the tile widgets of the user interface. Only what the results area shows is modelled (`Viewer.Render`, `Viewer.App.Shown`).
- Reading the workbook from disk. A workbook is an input: a sequence of named grids of cells, or `None` when the file is missing or unreadable.
- The preference file. Its content is an input at startup (`pref`) and a field that `OnLocationChange` sets. The uploaded file's write to disk, the notifications, the log lines and the server start are left out too.
- Numbers.Quantity: `float` and `to_numeric` also accept exponents, `inf`, `nan` and digit underscores. The model treats these as non-numbers, so such a quantity is 0 and such a case label is text.
- Loader.Normalise: a quantity of `inf`, `infinity` or an overflowing exponent becomes infinity in `to_numeric`; `astype(int)` then raises and the whole sheet is skipped (extras.py:110-112). The model keeps the sheet with quantity 0.
- Loader.RowLess: an Item column that the reader loads as numbers sorts numerically in the source (2 before 10), and mixed types are compared by type. The model sorts items as text, because an item is its text.
- Numbers.Truncate: the coerced quantity is an unbounded integer. The 64-bit integer width and the float rounding of huge values are not modelled.
- Cells.Trim: ASCII whitespace and the separators 0x1C to 0x1F are stripped; the non-ASCII whitespace that `strip()` also removes is not. Cells.Lower lowers ASCII letters only; Unicode case folding is not modelled.
- Cells.Cell: typed cells such as numbers, dates and booleans are represented by their `str()` form. How the spreadsheet reader renders them is not modelled.
- Viewer.FilterRows: `str.contains` treats the search text as a regular expression. The model matches it literally, which agrees with the regular expression only when the text has no special characters.
- A header row naming a required column twice makes the library raise an error. That sheet is skipped (`Skip.DuplicateColumns`).
- Viewer.App.HandleUpload: setting the selector's value fires `on_location_change` only when the value changes; this is modelled by `SetSelection`. A new options list that no longer holds the selected value is not modelled as a change by itself.
- Viewer.App.OnLocationChange: a key missing from `loc_map` raises `KeyError` in the source (extras.py:191). The model ignores such a key; the selector's own options are always keys of the map, so they never reach that case.
- Starting with no locations leaves the search box undefined, so a later upload that calls the tile update fails. This is not modelled; a render is a function of the state.
- Item rows are dropped only when the item cell is missing. The item text may still be empty, as in the code (`dropna`).
- The installer script `fix_install.py` is not part of this model.
