/** Loading a workbook: per sheet, find the header row, check the required
    columns, keep the rows that name an item, coerce the quantity, sort by
    the case key and the item, and keep the three required columns. */
module Loader {
  import opened Wrappers
  import opened Cells
  import opened Numbers
  import opened Sorting
  import opened SortKeys

  /** A sheet read without a header row: rows of cells. Rows may be
      shorter than the widest one; the missing cells read as `Missing`. */
  type Grid = seq<seq<Cell>>

  datatype NamedSheet = NamedSheet(name: string, grid: Grid)

  /** The sheets of a workbook, in workbook order. */
  type Workbook = seq<NamedSheet>

  /** A row of a cleaned table. `index` is the row's position in the raw
      sheet, the row heading the table keeps. */
  datatype KitRow = KitRow(index: nat, item: string, quantity: int, caseCell: Cell)

  type KitTable = seq<KitRow>

  /** Why a sheet is left out of the result. */
  datatype Skip = EmptySheet | NoHeader | MissingColumns | DuplicateColumns

  /** Where the header is and which columns hold the three required fields. */
  datatype Layout = Layout(header: nat, itemCol: nat, quantityCol: nat, caseCol: nat)

  const ItemLabel: string := "Item"
  const QuantityLabel: string := "Total Quantity"
  const CaseColumnLabel: string := "Packed in Case #"

  /** Only the first rows are searched for the header. */
  const HeaderScanLimit: nat := 20

  // ---------------------------------------------------------------------
  // The grid

  function At(row: seq<Cell>, j: nat): Cell
  {
    if j < |row| then row[j] else Missing
  }

  /** The number of columns: the length of the longest row. */
  function Width(g: Grid): (w: nat)
    ensures forall i :: 0 <= i < |g| ==> |g[i]| <= w
    ensures w == 0 || exists i :: 0 <= i < |g| && |g[i]| == w
  {
    if |g| == 0 then 0
    else
      var w := Width(g[1..]);
      assert forall i :: 1 <= i < |g| ==> g[i] == g[1..][i - 1];
      if |g[0]| >= w then |g[0]| else w
  }

  // ---------------------------------------------------------------------
  // Header detection

  /** Some cell of the row, stripped, is exactly `heading`. */
  predicate HasLabel(row: seq<Cell>, heading: string)
  {
    |row| > 0 && (Trim(Str(row[0])) == heading || HasLabel(row[1..], heading))
  }

  /** The cell found by `HasLabel`. */
  lemma {:induction false} HasLabelIff(row: seq<Cell>, heading: string)
    ensures HasLabel(row, heading) <==> exists j :: 0 <= j < |row| && Trim(Str(row[j])) == heading
  {
    if |row| > 0 {
      var tail := row[1..];
      HasLabelIff(tail, heading);
      if HasLabel(tail, heading) {
        var j :| 0 <= j < |tail| && Trim(Str(tail[j])) == heading;
        assert tail[j] == row[j + 1];
      }
      if j :| 0 < j < |row| && Trim(Str(row[j])) == heading {
        assert tail[j - 1] == row[j];
      }
    }
  }

  predicate IsHeader(row: seq<Cell>)
  {
    HasLabel(row, ItemLabel) && HasLabel(row, CaseColumnLabel)
  }

  function ScanEnd(g: Grid): nat
  {
    if |g| < HeaderScanLimit then |g| else HeaderScanLimit
  }

  function HeaderFrom(g: Grid, i: nat): (r: Option<nat>)
    requires i <= ScanEnd(g)
    ensures r.Some? ==> i <= r.value < ScanEnd(g) && IsHeader(g[r.value]) &&
                        forall k :: i <= k < r.value ==> !IsHeader(g[k])
    ensures r.None? ==> forall k :: i <= k < ScanEnd(g) ==> !IsHeader(g[k])
    decreases ScanEnd(g) - i
  {
    if i == ScanEnd(g) then None
    else if IsHeader(g[i]) then Some(i)
    else HeaderFrom(g, i + 1)
  }

  /** The header row: the first of the first 20 rows that holds both
      "Item" and "Packed in Case #"; none if there is no such row. */
  function HeaderRow(g: Grid): (r: Option<nat>)
    ensures r.Some? ==> r.value < HeaderScanLimit && r.value < |g| && IsHeader(g[r.value]) &&
                        forall k :: 0 <= k < r.value ==> !IsHeader(g[k])
    ensures r.None? ==> forall k :: 0 <= k < |g| && k < HeaderScanLimit ==> !IsHeader(g[k])
  {
    HeaderFrom(g, 0)
  }

  /** The header scan, stopping at the first match. */
  method FindHeader(g: Grid) returns (h: Option<nat>)
    ensures h == HeaderRow(g)
  {
    var n := if |g| < HeaderScanLimit then |g| else HeaderScanLimit;
    var i := 0;
    while i < n
      invariant 0 <= i <= n == ScanEnd(g)
      invariant HeaderFrom(g, i) == HeaderRow(g)
    {
      if IsHeader(g[i]) {
        return Some(i);
      }
      i := i + 1;
    }
    return None;
  }

  // ---------------------------------------------------------------------
  // Columns

  /** The column names: the header row's cells as stripped strings, one per
      column of the sheet. */
  function HeaderNames(g: Grid, h: nat): (names: seq<string>)
    requires h < |g|
    ensures |names| == Width(g)
    ensures forall j :: 0 <= j < |names| ==> names[j] == Trim(Str(At(g[h], j)))
  {
    seq(Width(g), j requires 0 <= j < Width(g) => Trim(Str(At(g[h], j))))
  }

  /** A name is among the column names exactly when some cell of the header
      row carries it, or when it is "nan" and the header row is shorter than
      the sheet (its missing cells read as "nan"). */
  lemma HeaderNamesLabel(g: Grid, h: nat, heading: string)
    requires h < |g|
    ensures heading in HeaderNames(g, h) <==>
              HasLabel(g[h], heading) || (|g[h]| < Width(g) && heading == "nan")
  {
    HasLabelIff(g[h], heading);
    if heading in HeaderNames(g, h) {
      NamedColumn(g, h, heading);
    } else {
      UnnamedColumn(g, h, heading);
    }
  }

  lemma NamedColumn(g: Grid, h: nat, heading: string)
    requires h < |g| && heading in HeaderNames(g, h)
    ensures (exists j :: 0 <= j < |g[h]| && Trim(Str(g[h][j])) == heading) ||
            (|g[h]| < Width(g) && heading == "nan")
  {
    var names := HeaderNames(g, h);
    var j :| 0 <= j < |names| && names[j] == heading;
    if j < |g[h]| {
      assert Trim(Str(g[h][j])) == heading;
    } else {
      NanTrimmed();
    }
  }

  lemma UnnamedColumn(g: Grid, h: nat, heading: string)
    requires h < |g| && heading !in HeaderNames(g, h)
    ensures forall j :: 0 <= j < |g[h]| ==> Trim(Str(g[h][j])) != heading
    ensures |g[h]| < Width(g) ==> heading != "nan"
  {
    var names := HeaderNames(g, h);
    forall j | 0 <= j < |g[h]|
      ensures Trim(Str(g[h][j])) != heading
    {
      assert names[j] == Trim(Str(g[h][j]));
    }
    if |g[h]| < Width(g) {
      NanTrimmed();
      assert names[|g[h]|] == "nan";
    }
  }

  lemma NanTrimmed()
    ensures Trim(Str(Missing)) == "nan"
  {
    TrimFixed("nan");
  }

  /** The header row found by the scan names the item and case columns. */
  lemma HeaderNamesOfHeader(g: Grid)
    requires HeaderRow(g).Some?
    ensures ItemLabel in HeaderNames(g, HeaderRow(g).value)
    ensures CaseColumnLabel in HeaderNames(g, HeaderRow(g).value)
  {
    HeaderNamesLabel(g, HeaderRow(g).value, ItemLabel);
    HeaderNamesLabel(g, HeaderRow(g).value, CaseColumnLabel);
  }

  /** `heading` names more than one column. */
  predicate Repeated(names: seq<string>, heading: string)
  {
    exists i, j :: 0 <= i < j < |names| && names[i] == heading && names[j] == heading
  }

  /** All three required columns are present, each exactly once. */
  predicate HasColumns(names: seq<string>)
  {
    ItemLabel in names && QuantityLabel in names && CaseColumnLabel in names &&
    !Repeated(names, ItemLabel) && !Repeated(names, QuantityLabel) && !Repeated(names, CaseColumnLabel)
  }

  /** The column named `heading`. */
  function Position(names: seq<string>, heading: string): (j: nat)
    requires heading in names
    ensures j < |names| && names[j] == heading
    ensures forall k :: 0 <= k < j ==> names[k] != heading
  {
    if names[0] == heading then 0 else 1 + Position(names[1..], heading)
  }

  /** The layout's columns carry the required names. */
  predicate ColumnsNamed(names: seq<string>, l: Layout)
  {
    l.itemCol < |names| && names[l.itemCol] == ItemLabel &&
    l.quantityCol < |names| && names[l.quantityCol] == QuantityLabel &&
    l.caseCol < |names| && names[l.caseCol] == CaseColumnLabel
  }

  /** The header row and the required columns of a sheet, or the reason it
      is skipped. */
  function SheetLayout(g: Grid): (r: Result<Layout, Skip>)
    ensures r.Ok? <==> HeaderRow(g).Some? && HasColumns(HeaderNames(g, HeaderRow(g).value))
    ensures HeaderRow(g).None? ==> r.Err? && (r.error == EmptySheet || r.error == NoHeader)
    ensures r.Ok? ==> r.value.header == HeaderRow(g).value && ColumnsNamed(HeaderNames(g, r.value.header), r.value)
  {
    if |g| == 0 || Width(g) == 0 then
      EmptyHasNoHeader(g);
      Err(EmptySheet)
    else match HeaderRow(g)
      case None => Err(NoHeader)
      case Some(h) =>
        var names := HeaderNames(g, h);
        if !(ItemLabel in names && QuantityLabel in names && CaseColumnLabel in names) then
          Err(MissingColumns)
        else if Repeated(names, ItemLabel) || Repeated(names, QuantityLabel) || Repeated(names, CaseColumnLabel) then
          Err(DuplicateColumns)
        else
          Ok(Layout(h, Position(names, ItemLabel), Position(names, QuantityLabel), Position(names, CaseColumnLabel)))
  }

  /** A sheet without cells has no header row. */
  lemma EmptyHasNoHeader(g: Grid)
    requires |g| == 0 || Width(g) == 0
    ensures HeaderRow(g).None?
  {
  }

  // ---------------------------------------------------------------------
  // Rows

  predicate ItemPresent(g: Grid, l: Layout, k: nat)
    requires k < |g|
  {
    At(g[k], l.itemCol).Value?
  }

  /** Raw row `k` as a table row: its item text, its coerced quantity and
      its case cell. */
  function RowAt(g: Grid, l: Layout, k: nat): KitRow
    requires k < |g|
  {
    var item := At(g[k], l.itemCol);
    KitRow(k, if item.Value? then item.text else "", Quantity(At(g[k], l.quantityCol)), At(g[k], l.caseCol))
  }

  /** The rows from `from` on that name an item, in sheet order. */
  function Survivors(g: Grid, l: Layout, from: nat): (r: KitTable)
    requires from <= |g|
    ensures forall x :: x in r ==> from <= x.index < |g| && ItemPresent(g, l, x.index) && x == RowAt(g, l, x.index)
    ensures forall k :: from <= k < |g| && ItemPresent(g, l, k) ==> RowAt(g, l, k) in r
    ensures forall i, j :: 0 <= i < j < |r| ==> r[i].index < r[j].index
    decreases |g| - from
  {
    if from == |g| then []
    else if ItemPresent(g, l, from) then [RowAt(g, l, from)] + Survivors(g, l, from + 1)
    else Survivors(g, l, from + 1)
  }

  // ---------------------------------------------------------------------
  // Order

  /** The table order: by the case key, then by item, then, for ties, by
      position in the sheet (the sort keeps the order of equal rows). */
  predicate RowLess(a: KitRow, b: KitRow)
  {
    var ka, kb := SmartSortKey(a.caseCell), SmartSortKey(b.caseCell);
    KeyLess(ka, kb) ||
    (ka == kb && (StrLess(a.item, b.item) || (a.item == b.item && a.index < b.index)))
  }

  lemma RowLessIsStrictOrder()
    ensures IsStrictOrder(RowLess)
  {
    forall a: KitRow ensures !RowLess(a, a) {
      KeyLessIrreflexive(SmartSortKey(a.caseCell));
      StrLessIrreflexive(a.item);
    }
    forall a: KitRow, b: KitRow, c: KitRow | RowLess(a, b) && RowLess(b, c) ensures RowLess(a, c) {
      var ka, kb, kc := SmartSortKey(a.caseCell), SmartSortKey(b.caseCell), SmartSortKey(c.caseCell);
      if KeyLess(ka, kb) && KeyLess(kb, kc) {
        KeyLessTransitive(ka, kb, kc);
      } else if StrLess(a.item, b.item) && StrLess(b.item, c.item) {
        StrLessTransitive(a.item, b.item, c.item);
      }
    }
  }

  /** Rows at different positions are always ordered. */
  lemma RowLessTotal(a: KitRow, b: KitRow)
    requires a.index != b.index
    ensures RowLess(a, b) || RowLess(b, a)
  {
    var ka, kb := SmartSortKey(a.caseCell), SmartSortKey(b.caseCell);
    if ka != kb {
      KeyLessTotal(ka, kb);
    } else if a.item != b.item {
      StrLessTotal(a.item, b.item);
    }
  }

  // ---------------------------------------------------------------------
  // One sheet

  /** The cleaned table of a sheet, or the reason it is skipped. A sheet
      yields a table exactly when it has a header row among its first 20
      rows and that row names each required column once. */
  function Normalise(g: Grid): (r: Result<KitTable, Skip>)
    ensures r.Ok? <==> HeaderRow(g).Some? && HasColumns(HeaderNames(g, HeaderRow(g).value))
    ensures HeaderRow(g).None? ==> r == Err(NoHeader) || r == Err(EmptySheet)
  {
    match SheetLayout(g)
    case Err(e) => Err(e)
    case Ok(l) => Ok(InsertionSort(Survivors(g, l, l.header + 1), RowLess))
  }

  /** The rows of a cleaned table are the rows strictly below the header
      that name an item, each exactly once, in the table order. */
  lemma NormaliseRows(g: Grid)
    requires Normalise(g).Ok?
    ensures var l := SheetLayout(g).value;
            var t := Normalise(g).value;
            Sorted(t, RowLess) && multiset(t) == multiset(Survivors(g, l, l.header + 1))
  {
    var l := SheetLayout(g).value;
    SortRows(Survivors(g, l, l.header + 1));
  }

  /** A row is in the cleaned table exactly when it lies below the header
      and names an item; it carries that sheet row's coerced quantity. */
  lemma NormaliseMembers(g: Grid)
    requires Normalise(g).Ok?
    ensures var l := SheetLayout(g).value;
            var t := Normalise(g).value;
            (forall x :: x in t ==> l.header < x.index < |g| && ItemPresent(g, l, x.index) && x == RowAt(g, l, x.index)) &&
            (forall k :: l.header < k < |g| && ItemPresent(g, l, k) ==> RowAt(g, l, k) in t)
  {
    var l := SheetLayout(g).value;
    var rows := Survivors(g, l, l.header + 1);
    SameMembers(Normalise(g).value, rows);
  }

  /** Rows at distinct positions sort into the table order. */
  lemma SortRows(rows: KitTable)
    requires forall i, j :: 0 <= i < j < |rows| ==> rows[i].index < rows[j].index
    ensures Sorted(InsertionSort(rows, RowLess), RowLess)
  {
    RowLessIsStrictOrder();
    assert Comparable(rows, RowLess) by {
      forall i, j | 0 <= i < |rows| && 0 <= j < |rows| && i != j
        ensures RowLess(rows[i], rows[j]) || RowLess(rows[j], rows[i])
      {
        RowLessTotal(rows[i], rows[j]);
      }
    }
    SortSorted(rows, RowLess);
  }

  /** The cleaned table is the only arrangement of those rows in the table
      order: the result is fully determined, ties included. */
  lemma NormaliseDetermined(g: Grid, u: KitTable)
    requires Normalise(g).Ok?
    requires var l := SheetLayout(g).value;
             Sorted(u, RowLess) && multiset(u) == multiset(Survivors(g, l, l.header + 1))
    ensures u == Normalise(g).value
  {
    NormaliseRows(g);
    RowLessIsStrictOrder();
    SortedUnique(u, Normalise(g).value, RowLess);
  }

  // ---------------------------------------------------------------------
  // The loaded sheets: an insertion-ordered mapping from sheet name to table

  datatype Entry = Entry(name: string, table: KitTable)

  type Sheets = seq<Entry>

  function Names(s: Sheets): (r: seq<string>)
    ensures |r| == |s| && forall i :: 0 <= i < |s| ==> r[i] == s[i].name
  {
    seq(|s|, i requires 0 <= i < |s| => s[i].name)
  }

  /** A name is listed exactly when some entry carries it. */
  lemma NamesIff(s: Sheets, name: string)
    ensures name in Names(s) <==> exists t :: Entry(name, t) in s
  {
    if name in Names(s) {
      var i :| 0 <= i < |s| && Names(s)[i] == name;
      assert s[i] == Entry(name, s[i].table);
    }
    if t :| Entry(name, t) in s {
      var i :| 0 <= i < |s| && s[i] == Entry(name, t);
      assert Names(s)[i] == name;
    }
  }

  predicate DistinctNames(s: Sheets)
  {
    forall i, j :: 0 <= i < j < |s| ==> s[i].name != s[j].name
  }

  /** `sheets.get(name)`. */
  function Lookup(s: Sheets, name: string): (r: Option<KitTable>)
    ensures r.None? <==> name !in Names(s)
    ensures r.Some? ==> Entry(name, r.value) in s
  {
    if |s| == 0 then None
    else if s[0].name == name then Some(s[0].table)
    else
      assert Names(s) == [s[0].name] + Names(s[1..]);
      Lookup(s[1..], name)
  }

  /** `sheets[name] = t`: a new name goes to the end, a known one keeps its
      place. */
  function Store(s: Sheets, name: string, t: KitTable): (r: Sheets)
    requires DistinctNames(s)
    ensures DistinctNames(r)
    ensures Names(r) == if name in Names(s) then Names(s) else Names(s) + [name]
  {
    if |s| == 0 then [Entry(name, t)]
    else
      DistinctTail(s);
      if s[0].name == name then
        var r := [Entry(name, t)] + s[1..];
        DistinctCons(Entry(name, t), s[1..]);
        r
      else
        var rest := Store(s[1..], name, t);
        DistinctCons(s[0], rest);
        [s[0]] + rest
  }

  /** The names after the first entry are distinct and differ from it. */
  lemma DistinctTail(s: Sheets)
    requires |s| > 0 && DistinctNames(s)
    ensures DistinctNames(s[1..]) && s[0].name !in Names(s[1..])
    ensures Names(s) == [s[0].name] + Names(s[1..])
  {
  }

  /** An entry whose name is new may be put in front. */
  lemma DistinctCons(e: Entry, s: Sheets)
    requires DistinctNames(s) && e.name !in Names(s)
    ensures DistinctNames([e] + s)
    ensures Names([e] + s) == [e.name] + Names(s)
  {
    assert forall i :: 0 < i <= |s| ==> ([e] + s)[i] == s[i - 1];
  }

  /** After `sheets[name] = t`, `name` maps to `t` and every other name to
      what it mapped to before. */
  lemma {:induction false} StoreLookup(s: Sheets, name: string, t: KitTable)
    requires DistinctNames(s)
    ensures Lookup(Store(s, name, t), name) == Some(t)
    ensures forall n :: n != name ==> Lookup(Store(s, name, t), n) == Lookup(s, n)
  {
    if |s| > 0 && s[0].name != name {
      StoreLookup(s[1..], name, t);
    }
  }

  /** The result of loading the sheets of a workbook, one after another. */
  function LoadSheets(wb: Workbook): (r: Sheets)
    ensures DistinctNames(r)
  {
    if |wb| == 0 then []
    else
      var prev := LoadSheets(wb[..|wb| - 1]);
      var last := wb[|wb| - 1];
      match Normalise(last.grid)
      case Ok(t) => Store(prev, last.name, t)
      case Err(_) => prev
  }

  /** Loading a file: an unreadable file (or none) loads as no sheets. */
  function LoadFile(file: Option<Workbook>): (r: Sheets)
    ensures DistinctNames(r)
  {
    match file
    case None => []
    case Some(wb) => LoadSheets(wb)
  }

  /** `load_data`: every sheet in turn; a sheet that is empty, has no
      header or lacks a required column is skipped. */
  method LoadData(file: Option<Workbook>) returns (sheets: Sheets)
    ensures sheets == LoadFile(file)
  {
    sheets := [];
    if file.None? {
      return;
    }
    var wb := file.value;
    var i := 0;
    while i < |wb|
      invariant 0 <= i <= |wb|
      invariant sheets == LoadSheets(wb[..i])
    {
      assert wb[..i + 1][..i] == wb[..i];
      var g := wb[i].grid;
      i := i + 1;
      if |g| == 0 || Width(g) == 0 {
        continue;
      }
      var h := FindHeader(g);
      if h.None? {
        continue;
      }
      var names := HeaderNames(g, h.value);
      if !HasColumns(names) {
        continue;
      }
      var l := SheetLayout(g).value;
      var rows := Survivors(g, l, h.value + 1);
      var table := InsertionSort(rows, RowLess);
      sheets := Store(sheets, wb[i - 1].name, table);
    }
    assert wb[..|wb|] == wb;
  }

  predicate DistinctSheetNames(wb: Workbook)
  {
    forall i, j :: 0 <= i < j < |wb| ==> wb[i].name != wb[j].name
  }

  /** The names of the sheets that yield a table, in workbook order. */
  function TableNames(wb: Workbook): seq<string>
  {
    if |wb| == 0 then []
    else TableNames(wb[..|wb| - 1]) + (if Normalise(wb[|wb| - 1].grid).Ok? then [wb[|wb| - 1].name] else [])
  }

  /** The table a sheet yields, if any. */
  function TableOf(g: Grid): Option<KitTable>
  {
    match Normalise(g)
    case Ok(t) => Some(t)
    case Err(_) => None
  }

  /** In a workbook (whose sheet names differ), the loaded names are the
      names of the sheets that yield a table, in workbook order. */
  lemma {:induction false} LoadedNames(wb: Workbook)
    requires DistinctSheetNames(wb)
    ensures Names(LoadSheets(wb)) == TableNames(wb)
  {
    if |wb| > 0 {
      var init := wb[..|wb| - 1];
      var last := wb[|wb| - 1];
      assert DistinctSheetNames(init);
      LoadedNames(init);
      LastNameIsNew(wb);
    }
  }

  lemma LastNameIsNew(wb: Workbook)
    requires |wb| > 0 && DistinctSheetNames(wb)
    ensures wb[|wb| - 1].name !in TableNames(wb[..|wb| - 1])
  {
    TableNamesFrom(wb[..|wb| - 1]);
  }

  /** In a workbook (whose sheet names differ), each sheet is loaded under
      its own name with its table if it yields one, and is absent if not. */
  lemma {:induction false} LoadedSheet(wb: Workbook, i: nat)
    requires DistinctSheetNames(wb) && i < |wb|
    ensures Lookup(LoadSheets(wb), wb[i].name) == TableOf(wb[i].grid)
  {
    var init := wb[..|wb| - 1];
    var last := wb[|wb| - 1];
    var prev := LoadSheets(init);
    assert DistinctSheetNames(init);
    LoadedNames(init);
    LastNameIsNew(wb);
    if i < |wb| - 1 {
      LoadedSheet(init, i);
      assert wb[i] == init[i];
      match Normalise(last.grid)
      case Ok(t) =>
        StoreLookup(prev, last.name, t);
      case Err(_) =>
    } else {
      match Normalise(last.grid)
      case Ok(t) =>
        StoreLookup(prev, last.name, t);
      case Err(_) =>
    }
  }

  lemma {:induction false} TableNamesFrom(wb: Workbook)
    ensures forall n :: n in TableNames(wb) ==> exists i :: 0 <= i < |wb| && wb[i].name == n
  {
    if |wb| > 0 {
      var init := wb[..|wb| - 1];
      TableNamesFrom(init);
      forall n | n in TableNames(wb) ensures exists i :: 0 <= i < |wb| && wb[i].name == n {
        if n in TableNames(init) {
          var i :| 0 <= i < |init| && init[i].name == n;
          assert wb[i].name == n;
        } else {
          assert wb[|wb| - 1].name == n;
        }
      }
    }
  }
}
