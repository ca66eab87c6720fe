/** The "smart sort" key of a case cell: numbers first, then text, then
    blanks and junk markers. */
module SortKeys {
  import opened Wrappers
  import opened Cells
  import opened Numbers
  import opened Sorting

  /** The tuple `(bucket, number, text)`; Python orders such tuples
      component by component. */
  datatype SortKey = SortKey(bucket: int, number: real, text: string)

  /** The junk markers, compared after lowering. */
  predicate IsJunk(t: string)
  {
    var l := Lower(t);
    l == "nan" || l == "none" || l == "-" || l == "nat"
  }

  /** A cell that sorts last: missing, blank after stripping, or a junk marker. */
  predicate IsBlank(c: Cell)
  {
    var t := Trim(Str(c));
    c.Missing? || t == "" || IsJunk(t)
  }

  /** `smart_sort_key`. */
  function SmartSortKey(c: Cell): (k: SortKey)
    ensures k.bucket == 1 || k.bucket == 2 || k.bucket == 3
    ensures k.bucket == 3 <==> IsBlank(c)
    ensures k.bucket == 3 ==> k == SortKey(3, 0.0, "")
    ensures k.bucket == 1 <==> !IsBlank(c) && ParseDecimal(Trim(Str(c))).Some?
    ensures k.bucket == 1 ==> k == SortKey(1, ParseDecimal(Trim(Str(c))).value, "")
    ensures k.bucket == 2 ==> k == SortKey(2, 0.0, Trim(Str(c)))
    ensures k.text != "" <==> k.bucket == 2
  {
    var t := Trim(Str(c));
    if c.Missing? || t == "" || IsJunk(t) then SortKey(3, 0.0, "")
    else match ParseDecimal(t)
      case Some(x) => SortKey(1, x, "")
      case None => SortKey(2, 0.0, t)
  }

  /** Python's `<` on the key tuples. */
  predicate KeyLess(a: SortKey, b: SortKey)
  {
    a.bucket < b.bucket ||
    (a.bucket == b.bucket && (a.number < b.number || (a.number == b.number && StrLess(a.text, b.text))))
  }

  lemma KeyLessIrreflexive(a: SortKey)
    ensures !KeyLess(a, a)
  {
    StrLessIrreflexive(a.text);
  }

  lemma KeyLessTransitive(a: SortKey, b: SortKey, c: SortKey)
    requires KeyLess(a, b) && KeyLess(b, c)
    ensures KeyLess(a, c)
  {
    if a.bucket == b.bucket == c.bucket && a.number == b.number == c.number {
      StrLessTransitive(a.text, b.text, c.text);
    }
  }

  lemma KeyLessTotal(a: SortKey, b: SortKey)
    requires a != b
    ensures KeyLess(a, b) || KeyLess(b, a)
  {
    if a.bucket == b.bucket && a.number == b.number {
      StrLessTotal(a.text, b.text);
    }
  }

  /** Keys order cells by bucket first: every number sorts before every
      text, and every text before every blank. */
  lemma BucketsInOrder(a: Cell, b: Cell)
    requires SmartSortKey(a).bucket < SmartSortKey(b).bucket
    ensures KeyLess(SmartSortKey(a), SmartSortKey(b))
    ensures !KeyLess(SmartSortKey(b), SmartSortKey(a))
  {
  }

  /** Within the numbers, keys follow the numeric value. */
  lemma NumbersByValue(a: Cell, b: Cell)
    requires SmartSortKey(a).bucket == 1 && SmartSortKey(b).bucket == 1
    ensures KeyLess(SmartSortKey(a), SmartSortKey(b)) <==>
              ParseDecimal(Trim(Str(a))).value < ParseDecimal(Trim(Str(b))).value
  {
    StrLessIrreflexive("");
  }

  /** Within the text, keys follow the stripped text; all blanks tie. */
  lemma TextByString(a: Cell, b: Cell)
    requires SmartSortKey(a).bucket == 2 && SmartSortKey(b).bucket == 2
    ensures KeyLess(SmartSortKey(a), SmartSortKey(b)) <==> StrLess(Trim(Str(a)), Trim(Str(b)))
  {
  }

  lemma BlanksTie(a: Cell, b: Cell)
    requires IsBlank(a) && IsBlank(b)
    ensures SmartSortKey(a) == SmartSortKey(b)
  {
  }

  /** Text that has a character other than a digit or '.' after its first
      position (a date such as "2024-01-31") is never a number: it is text,
      ordered by its string. */
  lemma DateLikeIsText(c: Cell, i: nat)
    requires !IsBlank(c)
    requires 0 < i < |Trim(Str(c))|
    requires !IsDigit(Trim(Str(c))[i]) && Trim(Str(c))[i] != '.'
    ensures SmartSortKey(c) == SortKey(2, 0.0, Trim(Str(c)))
  {
    if ParseDecimal(Trim(Str(c))).Some? {
      ParsedShape(Trim(Str(c)));
    }
  }

  /** Case labels "10", "2", "A", "-", "" and "1.5" order as 1.5, 2, 10,
      then A, then the two blanks tied. */
  lemma SmartSortExample()
    ensures KeyLess(SmartSortKey(Value("1.5")), SmartSortKey(Value("2")))
    ensures KeyLess(SmartSortKey(Value("2")), SmartSortKey(Value("10")))
    ensures KeyLess(SmartSortKey(Value("10")), SmartSortKey(Value("A")))
    ensures KeyLess(SmartSortKey(Value("A")), SmartSortKey(Value("-")))
    ensures SmartSortKey(Value("-")) == SmartSortKey(Value(""))
  {
    KeyOf15();
    KeyOf2();
    KeyOf10();
    KeyOfA();
    DashKey();
  }

  lemma KeyOf15()
    ensures SmartSortKey(Value("1.5")) == SortKey(1, 1.5, "")
  {
    Unsigned15();
    NumberKey("1.5", 1.5);
  }

  lemma KeyOf2()
    ensures SmartSortKey(Value("2")) == SortKey(1, 2.0, "")
  {
    Parse2();
    NumberKey("2", 2.0);
  }

  lemma KeyOf10()
    ensures SmartSortKey(Value("10")) == SortKey(1, 10.0, "")
  {
    Parse10();
    NumberKey("10", 10.0);
  }

  lemma KeyOfA()
    ensures SmartSortKey(Value("A")) == SortKey(2, 0.0, "A")
  {
    ParseA();
    NotJunk("A");
    WordKey("A");
  }

  /** A label that starts and ends with a digit and parses as `x` is a
      number key. */
  lemma NumberKey(t: string, x: real)
    requires |t| > 0 && IsDigit(t[0]) && IsDigit(t[|t| - 1])
    requires ParseDecimal(t) == Some(x)
    ensures SmartSortKey(Value(t)) == SortKey(1, x, "")
  {
    TrimFixed(t);
    NotJunk(t);
  }

  /** A label with non-blank ends that is no junk marker and no number is
      a text key. */
  lemma WordKey(t: string)
    requires |t| > 0 && !IsSpace(t[0]) && !IsSpace(t[|t| - 1])
    requires !IsJunk(t)
    requires ParseDecimal(t).None?
    ensures SmartSortKey(Value(t)) == SortKey(2, 0.0, t)
  {
    TrimFixed(t);
  }

  lemma ParseA()
    ensures ParseDecimal("A").None?
  {
    assert IndexOf("A", '.') == None by { assert "A"[1..] == ""; }
    assert !IsDigit("A"[0]);
  }

  /** A label whose first character is neither n nor '-' is no junk marker. */
  lemma NotJunk(t: string)
    requires |t| > 0 && LowerChar(t[0]) != 'n' && LowerChar(t[0]) != '-'
    ensures !IsJunk(t)
  {
    assert Lower(t)[0] == LowerChar(t[0]);
  }

  /** "-" is a junk marker, keyed with the blanks. */
  lemma DashKey()
    ensures SmartSortKey(Value("-")) == SortKey(3, 0.0, "")
    ensures SmartSortKey(Value("")) == SortKey(3, 0.0, "")
  {
    TrimFixed("-");
    assert Lower("-") == "-" by {
      assert Lower("-")[0] == LowerChar('-');
    }
    TrimFixed("");
  }

  lemma Unsigned15()
    ensures ParseDecimal("1.5") == Some(1.5)
  {
    assert IndexOf("1.5", '.') == Some(1) by {
      assert "1.5"[1..] == ".5";
      assert IndexOf(".5", '.') == Some(0);
    }
    assert "1.5"[..1] == "1" && "1.5"[2..] == "5";
    assert DigitsValue("1") == 1 by { assert "1"[..0] == ""; }
    assert DigitsValue("5") == 5 by { assert "5"[..0] == ""; }
  }

  lemma Parse2()
    ensures ParseDecimal("2") == Some(2.0)
  {
    assert "2"[..0] == "";
  }

  lemma Parse10()
    ensures ParseDecimal("10") == Some(10.0)
  {
    assert "10"[..1] == "1" && "1"[..0] == "";
  }
}
