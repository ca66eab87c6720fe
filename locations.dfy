/** Location keys derived from sheet names, the key-to-sheet mapping, the
    sorted catalogue of keys offered for selection, and the location chosen
    at startup. */
module Locations {
  import opened Cells
  import opened Sorting

  /** The text after the last '-' of `s`; all of `s` when it has none. */
  function AfterLastHyphen(s: string): (r: string)
    ensures |r| <= |s| && r == s[|s| - |r|..]
    ensures '-' !in r
    ensures |r| < |s| ==> s[|s| - |r| - 1] == '-'
  {
    if |s| == 0 then ""
    else if s[|s| - 1] == '-' then ""
    else
      var r := AfterLastHyphen(s[..|s| - 1]);
      assert s[..|s| - 1][|s| - 1 - |r|..] + [s[|s| - 1]] == s[|s| - |r| - 1..];
      r + [s[|s| - 1]]
  }

  /** `k.split("-")[-1].strip() if "-" in k else k`. */
  function LocationKey(name: string): (k: string)
    ensures '-' !in k
    ensures '-' !in name ==> k == name
  {
    if '-' in name then Trim(AfterLastHyphen(name)) else name
  }

  /** The key of a name with a hyphen is the stripped text after its last
      hyphen: the name ends with a hyphen followed by text that, stripped,
      is the key and holds no further hyphen. */
  lemma KeyOfHyphenatedName(name: string)
    requires '-' in name
    ensures exists i :: 0 <= i < |name| && name[i] == '-' && '-' !in name[i + 1..] &&
                        LocationKey(name) == Trim(name[i + 1..])
  {
    var r := AfterLastHyphen(name);
    var i := |name| - |r| - 1;
    assert name[i + 1..] == r;
  }

  /** `loc_map`: each key to the name of the sheet it came from; when two
      names give one key, the later name wins. */
  function LocMap(names: seq<string>): (m: map<string, string>)
    ensures forall k :: k in m ==> m[k] in names && LocationKey(m[k]) == k
    ensures forall n :: n in names ==> LocationKey(n) in m
  {
    if |names| == 0 then map[]
    else
      var init := names[..|names| - 1];
      var last := names[|names| - 1];
      assert forall n :: n in init ==> n in names;
      assert forall n :: n in names ==> n in init || n == last;
      LocMap(init)[LocationKey(last) := last]
  }

  /** On a key collision, the later sheet is the one selected. */
  lemma {:induction false} LaterNameWins(names: seq<string>, i: nat)
    requires i < |names|
    requires forall j :: i < j < |names| ==> LocationKey(names[j]) != LocationKey(names[i])
    ensures LocMap(names)[LocationKey(names[i])] == names[i]
  {
    if i < |names| - 1 {
      var init := names[..|names| - 1];
      assert init[i] == names[i];
      LaterNameWins(init, i);
    }
  }

  /** The keys of `loc_map` in the order they were first added. */
  function DistinctKeys(names: seq<string>): (r: seq<string>)
    ensures forall k :: k in r <==> k in LocMap(names)
    ensures forall i, j :: 0 <= i < j < |r| ==> r[i] != r[j]
  {
    if |names| == 0 then []
    else
      var init := names[..|names| - 1];
      var k := LocationKey(names[|names| - 1]);
      var p := DistinctKeys(init);
      if k in p then p else p + [k]
  }

  lemma StrLessIsStrictOrder()
    ensures IsStrictOrder(StrLess)
  {
    forall a: string ensures !StrLess(a, a) {
      StrLessIrreflexive(a);
    }
    forall a: string, b: string, c: string | StrLess(a, b) && StrLess(b, c) ensures StrLess(a, c) {
      StrLessTransitive(a, b, c);
    }
  }

  /** `locations`: the keys, sorted. */
  function Catalogue(names: seq<string>): (r: seq<string>)
    ensures forall k :: k in r <==> k in LocMap(names)
    ensures |r| == |DistinctKeys(names)|
  {
    var keys := DistinctKeys(names);
    SameMembers(keys, InsertionSort(keys, StrLess));
    InsertionSort(keys, StrLess)
  }

  /** The catalogue holds every key exactly once, in ascending order, and
      nothing else; it is the only such list. */
  lemma CatalogueSpec(names: seq<string>)
    ensures Sorted(Catalogue(names), StrLess)
    ensures forall k :: k in Catalogue(names) <==> k in LocMap(names)
    ensures forall u: seq<string> :: Sorted(u, StrLess) && multiset(u) == multiset(DistinctKeys(names)) ==> u == Catalogue(names)
  {
    var keys := DistinctKeys(names);
    StrLessIsStrictOrder();
    assert Comparable(keys, StrLess) by {
      forall i, j | 0 <= i < |keys| && 0 <= j < |keys| && i != j
        ensures StrLess(keys[i], keys[j]) || StrLess(keys[j], keys[i])
      {
        StrLessTotal(keys[i], keys[j]);
      }
    }
    SortSorted(keys, StrLess);
    forall k ensures k in Catalogue(names) <==> k in keys {
      assert k in Catalogue(names) <==> k in multiset(Catalogue(names));
      assert k in keys <==> k in multiset(keys);
    }
    forall u: seq<string> | Sorted(u, StrLess) && multiset(u) == multiset(keys) ensures u == Catalogue(names) {
      SortedUnique(u, Catalogue(names), StrLess);
    }
  }

  /** The remembered location is kept if it is offered; otherwise the first
      location is taken; with no locations there is none (""). */
  function StartupChoice(locations: seq<string>, saved: string): (r: string)
    ensures |locations| == 0 ==> r == ""
    ensures |locations| > 0 ==> r in locations
    ensures saved != "" && saved in locations ==> r == saved
    ensures (saved == "" || saved !in locations) && |locations| > 0 ==> r == locations[0]
  {
    var last := if saved in locations then saved else "";
    if (last == "" || last !in locations) && |locations| > 0 then locations[0] else last
  }

  /** A location that was selected and saved is selected again at the next
      start, as long as the same sheets give the same catalogue. */
  lemma RememberedLocationRestored(names: seq<string>, k: string)
    requires k in Catalogue(names)
    ensures StartupChoice(Catalogue(names), k) == k
  {
    if k == "" {
      CatalogueSpec(names);
    }
  }
}
