/** The view controller: the search filter, what a tile shows, and the
    application state that the location and upload handlers update. */
module Viewer {
  import opened Wrappers
  import opened Cells
  import opened Sorting
  import opened SortKeys
  import opened Loader
  import opened Locations

  // ---------------------------------------------------------------------
  // Search

  /** The row's item contains the search text, ignoring case. */
  predicate Matches(r: KitRow, text: string)
  {
    Contains(Lower(r.item), Lower(text))
  }

  /** The search ignores the case of the search text. */
  lemma MatchesIgnoresCase(r: KitRow, text: string)
    ensures Matches(r, text) <==> Matches(r, Lower(text))
  {
    LowerIdempotent(text);
  }

  /** `a` is `b` with some entries left out and the rest in their order. */
  predicate IsSubsequence<T(==)>(a: seq<T>, b: seq<T>)
    decreases |b|
  {
    |a| == 0 || (|b| > 0 && if a[0] == b[0] then IsSubsequence(a[1..], b[1..]) else IsSubsequence(a, b[1..]))
  }

  /** The rows whose item contains the text, in table order. */
  function FilterRows(t: KitTable, text: string): (r: KitTable)
    ensures forall x :: x in r <==> x in t && Matches(x, text)
    ensures IsSubsequence(r, t)
  {
    if |t| == 0 then []
    else if Matches(t[0], text) then [t[0]] + FilterRows(t[1..], text)
    else
      var r := FilterRows(t[1..], text);
      assert forall x :: x in t <==> x == t[0] || x in t[1..];
      r
  }

  /** The rows the tiles show: the whole table for an empty search,
      otherwise the rows whose item contains the search text. */
  function Search(t: KitTable, text: string): (r: KitTable)
    ensures text == "" ==> r == t
    ensures text != "" ==> forall x :: x in r <==> x in t && Matches(x, text)
    ensures IsSubsequence(r, t)
  {
    if text == "" then
      SubsequenceOfItself(t);
      t
    else FilterRows(t, text)
  }

  lemma {:induction false} SubsequenceOfItself<T>(t: seq<T>)
    ensures IsSubsequence(t, t)
  {
    if |t| > 0 { SubsequenceOfItself(t[1..]); }
  }

  lemma {:induction false} SubsequenceMembers<T>(a: seq<T>, b: seq<T>)
    requires IsSubsequence(a, b)
    ensures forall x :: x in a ==> x in b
    decreases |b|
  {
    if |a| > 0 {
      if a[0] == b[0] {
        SubsequenceMembers(a[1..], b[1..]);
        assert forall x :: x in a ==> x == a[0] || x in a[1..];
      } else {
        SubsequenceMembers(a, b[1..]);
      }
    }
  }

  /** Leaving entries out of a sorted sequence keeps it sorted. */
  lemma {:induction false} SubsequenceSorted<T>(a: seq<T>, b: seq<T>, lt: (T, T) -> bool)
    requires IsSubsequence(a, b) && Sorted(b, lt)
    ensures Sorted(a, lt)
    decreases |b|
  {
    if |a| > 0 {
      SortedTail(b, lt);
      if a[0] == b[0] {
        SubsequenceSorted(a[1..], b[1..], lt);
        SubsequenceMembers(a[1..], b[1..]);
        forall j | 0 < j < |a| ensures lt(a[0], a[j]) {
          assert a[j] in a[1..];
          var k :| 0 <= k < |b[1..]| && b[1..][k] == a[j];
          assert b[k + 1] == a[j];
        }
      } else {
        SubsequenceSorted(a, b[1..], lt);
      }
    }
  }

  /** The filtered rows stay in the table order (by case key, then item). */
  lemma SearchKeepsOrder(t: KitTable, text: string)
    requires Sorted(t, RowLess)
    ensures Sorted(Search(t, text), RowLess)
  {
    SubsequenceSorted(Search(t, text), t, RowLess);
  }

  // ---------------------------------------------------------------------
  // Tiles

  /** The case label as a tile shows it: "-" for a missing value and for
      "nan", "none", "nat" (any case) and the empty string; otherwise the
      value's string form, unstripped. */
  function CaseText(c: Cell): (s: string)
    ensures s != ""
    ensures c.Missing? ==> s == "-"
    ensures s == "-" <==>
              var l := Lower(Str(c));
              Str(c) == "-" || l == "nan" || l == "none" || l == "" || l == "nat"
    ensures s != "-" ==> s == Str(c)
  {
    var v := Str(c);
    var l := Lower(v);
    if l == "nan" || l == "none" || l == "" || l == "nat" then "-" else v
  }

  /** A label shown as "-" belongs to a row that sorts among the blanks. */
  lemma DashSortsLast(c: Cell)
    requires CaseText(c) == "-"
    ensures SmartSortKey(c).bucket == 3
  {
    var v := Str(c);
    if c.Value? && v != "" {
      var l := Lower(v);
      assert l == "-" || l == "nan" || l == "none" || l == "nat";
      assert l[0] == LowerChar(v[0]) && l[|l| - 1] == LowerChar(v[|v| - 1]);
      assert !IsSpace(l[0]) && !IsSpace(l[|l| - 1]);
      TrimFixed(v);
    }
  }

  /** For a value without surrounding whitespace, the label is "-" exactly
      when the row sorts among the blanks. */
  lemma DashIffBlank(c: Cell)
    requires Trim(Str(c)) == Str(c)
    ensures CaseText(c) == "-" <==> IsBlank(c)
  {
    if CaseText(c) == "-" {
      DashSortsLast(c);
    } else if IsBlank(c) {
      BlankIsDash(c);
    }
  }

  lemma BlankIsDash(c: Cell)
    requires Trim(Str(c)) == Str(c) && IsBlank(c)
    ensures CaseText(c) == "-"
  {
    var v := Str(c);
    if c.Value? && v != "" && Lower(v) == "-" {
      LowerIsDash(v);
    }
  }

  lemma LowerIsDash(v: string)
    requires Lower(v) == "-"
    ensures v == "-"
  {
    assert LowerChar(v[0]) == '-';
  }

  datatype Tile = Tile(title: string, quantity: int, caseText: string)

  /** What the results area shows: nothing without a table, a "no items"
      note when no row matches, otherwise one tile per matching row. */
  datatype View = Blank | NoItems | Tiles(tiles: seq<Tile>)

  function TileOf(r: KitRow): Tile
  {
    Tile(r.item, r.quantity, CaseText(r.caseCell))
  }

  /** `update_tiles`. */
  function Render(table: Option<KitTable>, text: string): (v: View)
    ensures v.Blank? <==> table.None?
    ensures table.Some? ==> (v.NoItems? <==> Search(table.value, text) == [])
    ensures v.Tiles? ==>
              var shown := Search(table.value, text);
              |v.tiles| == |shown| > 0 &&
              forall i :: 0 <= i < |shown| ==> v.tiles[i] == TileOf(shown[i]) && v.tiles[i].caseText != ""
  {
    match table
    case None => Blank
    case Some(t) =>
      var shown := Search(t, text);
      if |shown| == 0 then NoItems
      else Tiles(seq(|shown|, i requires 0 <= i < |shown| => TileOf(shown[i])))
  }

  // ---------------------------------------------------------------------
  // Application state

  /** Every offered location has an entry in the key map, whose sheet is
      loaded. */
  lemma CatalogueResolves(s: Sheets)
    ensures Sorted(Catalogue(Names(s)), StrLess)
    ensures forall k :: k in Catalogue(Names(s)) <==> k in LocMap(Names(s))
    ensures forall k :: k in LocMap(Names(s)) ==> Lookup(s, LocMap(Names(s))[k]).Some?
  {
    CatalogueSpec(Names(s));
  }

  /** The derived state agrees with the loaded sheets: the key map is that
      of their names, and the catalogue is sorted and offers exactly the
      map's keys. */
  ghost predicate Consistent(s: Sheets, m: map<string, string>, locs: seq<string>)
  {
    DistinctNames(s) &&
    m == LocMap(Names(s)) &&
    Sorted(locs, StrLess) &&
    (forall k :: k in locs <==> k in m)
  }

  /** Deriving the key map and the catalogue from loaded sheets gives a
      consistent state. */
  lemma DerivedConsistent(s: Sheets)
    requires DistinctNames(s)
    ensures Consistent(s, LocMap(Names(s)), Catalogue(Names(s)))
  {
    CatalogueResolves(s);
  }

  /** The location chosen at startup, unless empty, has an entry in the key
      map whose sheet is loaded. */
  lemma ChoiceResolves(s: Sheets, saved: string)
    ensures var last := StartupChoice(Catalogue(Names(s)), saved);
            last != "" ==> last in LocMap(Names(s)) && Lookup(s, LocMap(Names(s))[last]).Some?
  {
    CatalogueResolves(s);
  }

  /** What the program derives at startup: the loaded sheets, the key map,
      the catalogue, the location to show and its table. */
  method StartupState(file: Option<Workbook>, pref: Option<string>)
      returns (loaded: Sheets, m: map<string, string>, locs: seq<string>, last: string, table: Option<KitTable>)
    ensures loaded == LoadFile(file) && locs == Catalogue(Names(loaded))
    ensures Consistent(loaded, m, locs)
    ensures last == StartupChoice(locs, SavedText(pref))
    ensures last != "" ==> last in m && table == Lookup(loaded, m[last]) && table.Some?
    ensures last == "" ==> table == None
  {
    loaded := LoadData(file);
    var names := Names(loaded);
    m := LocMap(names);
    locs := Catalogue(names);
    DerivedConsistent(loaded);
    last := StartupChoice(locs, SavedText(pref));
    ChoiceResolves(loaded, SavedText(pref));
    table := None;
    if last != "" && |locs| > 0 {
      table := Lookup(loaded, m[last]);
    }
  }

  /** The text of the remembered location: "" when there is none. */
  function SavedText(pref: Option<string>): string
  {
    match pref
    case None => ""
    case Some(k) => k
  }

  /** A sheet whose name ends in a hyphen (and blanks) gets the empty key,
      which sorts first. Unless another remembered location is offered, it
      is the one chosen at startup, although it has a loaded table; by the
      start-up contract below, no table is then shown. */
  lemma EmptyKeyShowsNoTable(s: Sheets, saved: string)
    requires "" in Catalogue(Names(s))
    requires saved == "" || saved !in Catalogue(Names(s))
    ensures StartupChoice(Catalogue(Names(s)), saved) == ""
    ensures "" in LocMap(Names(s)) && Lookup(s, LocMap(Names(s))[""]).Some?
  {
    RememberedLocationRestored(Names(s), "");
    CatalogueResolves(s);
  }

  /** The application: the loaded sheets, the key map and catalogue derived
      from them, the current table, the remembered selection, the search
      text, the location selector and the preference file's content. */
  /** Showing the first location after an upload changes the selector's
      value to a non-empty key, so the change handler saves it. */
  predicate Saves(prev: Option<string>, locations: seq<string>)
  {
    |locations| > 0 && locations[0] != "" && prev != Some(locations[0])
  }

  class App {
    var sheets: Sheets
    var locMap: map<string, string>
    var locations: seq<string>
    var current: Option<KitTable>
    var lastLoc: string
    var searchText: string
    var selected: Option<string>
    var selectorEnabled: bool
    var preference: Option<string>

    /** The key map and catalogue are those of the loaded sheets, and
        every offered location resolves to a loaded table. */
    ghost predicate Valid()
      reads this`sheets, this`locMap, this`locations
    {
      Consistent(sheets, locMap, locations)
    }

    /** Startup: load the workbook (none if the file is absent or
        unreadable), derive the locations, restore the remembered one or
        fall back to the first, and show its table. */
    constructor Startup(file: Option<Workbook>, pref: Option<string>)
      ensures Valid()
      ensures sheets == LoadFile(file) && locations == Catalogue(Names(sheets))
      ensures lastLoc == StartupChoice(locations, SavedText(pref))
      ensures lastLoc != "" ==> lastLoc in locMap && current == Lookup(sheets, locMap[lastLoc]) && current.Some?
      ensures lastLoc == "" ==> current == None
      ensures selected == (if |locations| > 0 then Some(lastLoc) else None)
      ensures selectorEnabled == (|locations| > 0)
      ensures searchText == "" && preference == pref
    {
      var loaded, m, locs, last, table := StartupState(file, pref);
      sheets, locMap, locations := loaded, m, locs;
      lastLoc, current := last, table;
      // The selector shows the chosen location; its fallback to the first
      // location cannot arise, since a chosen location is always offered.
      selected := if |locs| > 0 then Some(last) else None;
      selectorEnabled := |locs| > 0;
      searchText, preference := "", pref;
    }

    /** `all_sheets`, `loc_map` and `locations` replaced by those of a new
        set of sheets; nothing else changes. */
    method Reload(loaded: Sheets)
      requires DistinctNames(loaded)
      modifies this`sheets, this`locMap, this`locations
      ensures Valid()
      ensures sheets == loaded && locMap == LocMap(Names(loaded)) && locations == Catalogue(Names(loaded))
    {
      var names := Names(loaded);
      DerivedConsistent(loaded);
      sheets, locMap, locations := loaded, LocMap(names), Catalogue(names);
    }

    /** The location selector changed to `newLoc`. A non-empty key shows
        its sheet's table, is saved as the preference and clears the
        search; an empty one does nothing. */
    method OnLocationChange(newLoc: Option<string>)
      modifies this`selected, this`current, this`preference, this`searchText
      ensures selected == newLoc
      ensures if newLoc.Some? && newLoc.value != "" && newLoc.value in locMap then
                current == Lookup(sheets, locMap[newLoc.value]) && preference == newLoc && searchText == ""
              else
                current == old(current) && preference == old(preference) && searchText == old(searchText)
      ensures sheets == old(sheets) && locMap == old(locMap) && locations == old(locations)
      ensures lastLoc == old(lastLoc) && selectorEnabled == old(selectorEnabled)
    {
      selected := newLoc;
      if newLoc.Some? && newLoc.value != "" && newLoc.value in locMap {
        current := Lookup(sheets, locMap[newLoc.value]);
        preference := newLoc;
        searchText := "";
      }
    }

    /** The selector's value set by the program. The selector fires
        `on_location_change` when its value actually changes. */
    method SetSelection(v: Option<string>)
      modifies this`selected, this`current, this`preference, this`searchText
      ensures selected == v
      ensures if v != old(selected) && v.Some? && v.value != "" && v.value in locMap then
                current == Lookup(sheets, locMap[v.value]) && preference == v && searchText == ""
              else
                current == old(current) && preference == old(preference) && searchText == old(searchText)
      ensures sheets == old(sheets) && locMap == old(locMap) && locations == old(locations)
      ensures lastLoc == old(lastLoc) && selectorEnabled == old(selectorEnabled)
    {
      if v != selected {
        OnLocationChange(v);
      }
    }

    /** A new workbook was uploaded: reload everything; select the first
        location if there is one, else clear the table and disable the
        selector. Selecting a location other than the one shown fires the
        change handler, which saves it and clears the search. */
    method HandleUpload(file: Option<Workbook>)
      modifies this`sheets, this`locMap, this`locations, this`selected, this`selectorEnabled
      modifies this`lastLoc, this`current, this`preference, this`searchText
      ensures Valid()
      ensures sheets == LoadFile(file) && locations == Catalogue(Names(sheets))
      ensures |locations| > 0 ==>
                selected == Some(locations[0]) && selectorEnabled && lastLoc == locations[0] &&
                current == Lookup(sheets, locMap[locations[0]]) && current.Some?
      ensures |locations| == 0 ==>
                selected == None && !selectorEnabled && current == None && lastLoc == old(lastLoc)
      ensures if Saves(old(selected), locations) then preference == Some(locations[0]) && searchText == ""
              else preference == old(preference) && searchText == old(searchText)
    {
      var loaded := LoadData(file);
      Reload(loaded);
      SelectFirst();
    }

    /** After a reload: the selector is set to the first location, or to
        none, which fires the change handler when its value changes; then
        that location's table is shown. */
    method SelectFirst()
      requires Valid()
      modifies this`selected, this`selectorEnabled, this`lastLoc, this`current
      modifies this`preference, this`searchText
      ensures Valid()
      ensures |locations| > 0 ==>
                selected == Some(locations[0]) && selectorEnabled && lastLoc == locations[0] &&
                current == Lookup(sheets, locMap[locations[0]]) && current.Some?
      ensures |locations| == 0 ==>
                selected == None && !selectorEnabled && current == None && lastLoc == old(lastLoc)
      ensures if Saves(old(selected), locations) then preference == Some(locations[0]) && searchText == ""
              else preference == old(preference) && searchText == old(searchText)
    {
      SetSelection(if |locations| > 0 then Some(locations[0]) else None);
      ShowFirst();
    }

    /** After a reload: the first location is selected and its table shown,
        or, with no locations, the table is cleared and the selector
        disabled. */
    method ShowFirst()
      requires Valid()
      modifies this`selected, this`selectorEnabled, this`lastLoc, this`current
      ensures Valid()
      ensures |locations| > 0 ==>
                selected == Some(locations[0]) && selectorEnabled && lastLoc == locations[0] &&
                current == Lookup(sheets, locMap[locations[0]]) && current.Some?
      ensures |locations| == 0 ==>
                selected == None && !selectorEnabled && current == None && lastLoc == old(lastLoc)
    {
      if |locations| > 0 {
        selected := Some(locations[0]);
        selectorEnabled := true;
        lastLoc := locations[0];
        current := Lookup(sheets, locMap[locations[0]]);
      } else {
        selected := None;
        selectorEnabled := false;
        current := None;
      }
    }

    /** The search box's text changed. */
    method SetSearchText(text: string)
      modifies this`searchText
      ensures searchText == text
    {
      searchText := text;
    }

    /** What the results area shows now. */
    function Shown(): (v: View)
      reads this
      ensures v.Blank? <==> current.None?
      ensures current.Some? && searchText == "" && |current.value| > 0 ==>
                v.Tiles? && |v.tiles| == |current.value|
    {
      Render(current, searchText)
    }
  }
}
