/** Cells of a sheet read without a header row, and the string operations
    the loader and the view apply to them (`str`, `strip`, `lower`,
    string ordering and substring search). */
module Cells {

  /** A cell. A present value is represented by its string form, the text
      `str(value)` produces; `Missing` is the reader's missing marker (NaN). */
  datatype Cell = Missing | Value(text: string)

  /** `str(value)`: the missing marker prints as "nan". */
  function Str(c: Cell): string
  {
    match c
    case Missing => "nan"
    case Value(t) => t
  }

  /** The whitespace `strip()` removes (the ASCII part of it): space, tab,
      the line and page breaks, and the four separators 0x1C to 0x1F. */
  predicate IsSpace(ch: char)
  {
    ch == ' ' || '\t' <= ch <= '\r' || '\U{1C}' <= ch <= '\U{1F}'
  }

  /** `s` with its leading whitespace removed: a suffix of `s` preceded only
      by whitespace and not starting with whitespace. */
  function TrimLeft(s: string): (r: string)
    ensures |r| <= |s| && r == s[|s| - |r|..]
    ensures forall i :: 0 <= i < |s| - |r| ==> IsSpace(s[i])
    ensures r == [] || !IsSpace(r[0])
  {
    if |s| > 0 && IsSpace(s[0]) then TrimLeft(s[1..]) else s
  }

  /** `s` with its trailing whitespace removed: a prefix of `s` followed only
      by whitespace and not ending with whitespace. */
  function TrimRight(s: string): (r: string)
    ensures |r| <= |s| && r == s[..|r|]
    ensures forall i :: |r| <= i < |s| ==> IsSpace(s[i])
    ensures r == [] || !IsSpace(r[|r| - 1])
  {
    if |s| > 0 && IsSpace(s[|s| - 1]) then TrimRight(s[..|s| - 1]) else s
  }

  /** `s.strip()`. */
  function Trim(s: string): (r: string)
    ensures r == [] || (!IsSpace(r[0]) && !IsSpace(r[|r| - 1]))
    ensures r == [] <==> forall i :: 0 <= i < |s| ==> IsSpace(s[i])
    ensures forall ch :: ch in r ==> ch in s
  {
    TrimEnds(s);
    TrimBlank(s);
    TrimChars(s);
    TrimRight(TrimLeft(s))
  }

  lemma TrimEnds(s: string)
    ensures var r := TrimRight(TrimLeft(s));
            r == [] || (!IsSpace(r[0]) && !IsSpace(r[|r| - 1]))
  {
    var l := TrimLeft(s);
    var r := TrimRight(l);
    if r != [] {
      assert r[0] == l[0];
    }
  }

  lemma TrimBlank(s: string)
    ensures TrimRight(TrimLeft(s)) == [] <==> forall i :: 0 <= i < |s| ==> IsSpace(s[i])
  {
    var l := TrimLeft(s);
    var r := TrimRight(l);
    if r != [] {
      assert s[|s| - |l|] == l[0] == r[0];
    }
  }

  lemma TrimChars(s: string)
    ensures forall ch :: ch in TrimRight(TrimLeft(s)) ==> ch in s
  {
    var l := TrimLeft(s);
    var r := TrimRight(l);
    var k := |s| - |l|;
    assert r == s[k..k + |r|];
  }

  /** The input is whitespace, then its stripped text, then whitespace:
      stripping removes the outer whitespace and nothing else. */
  lemma TrimSplit(s: string) returns (p: string, q: string)
    ensures AllSpace(p) && AllSpace(q) && s == p + Trim(s) + q
  {
    var l := TrimLeft(s);
    var r := TrimRight(l);
    p := s[..|s| - |l|];
    q := l[|r|..];
    LeadingSpace(s);
    TrailingSpace(l);
    SuffixPrefix(s, l, r);
  }

  /** A prefix `r` of a suffix `l` of `s` splits `s` in three. */
  lemma SuffixPrefix(s: string, l: string, r: string)
    requires |l| <= |s| && l == s[|s| - |l|..] && |r| <= |l| && r == l[..|r|]
    ensures s == s[..|s| - |l|] + r + l[|r|..]
  {
    assert l[..|r|] + l[|r|..] == l;
    assert s[..|s| - |l|] + s[|s| - |l|..] == s;
  }

  lemma LeadingSpace(s: string)
    ensures AllSpace(s[..|s| - |TrimLeft(s)|])
  {
    var p := s[..|s| - |TrimLeft(s)|];
    forall k | 0 <= k < |p| ensures IsSpace(p[k]) {
      assert p[k] == s[k];
    }
  }

  lemma TrailingSpace(l: string)
    ensures AllSpace(l[|TrimRight(l)|..])
  {
    var n := |TrimRight(l)|;
    var q := l[n..];
    forall k | 0 <= k < |q| ensures IsSpace(q[k]) {
      assert q[k] == l[n + k];
    }
  }

  /** Only whitespace. */
  predicate AllSpace(s: string)
  {
    forall i :: 0 <= i < |s| ==> IsSpace(s[i])
  }

  /** Text with no whitespace at either end is its own trim. */
  lemma TrimFixed(s: string)
    requires s == [] || (!IsSpace(s[0]) && !IsSpace(s[|s| - 1]))
    ensures Trim(s) == s
  {
    TrimLeftFixed(s);
    TrimRightFixed(s);
  }

  /** Whitespace added around such text is stripped again. */
  lemma TrimSurrounded(p: string, s: string, q: string)
    requires AllSpace(p) && AllSpace(q)
    requires |s| > 0 && !IsSpace(s[0]) && !IsSpace(s[|s| - 1])
    ensures Trim(p + s + q) == s
  {
    assert p + s + q == p + (s + q);
    TrimLeftSkips(p, s + q);
    TrimRightSkips(s, q);
  }

  lemma {:induction false} TrimLeftSkips(p: string, x: string)
    requires AllSpace(p) && |x| > 0 && !IsSpace(x[0])
    ensures TrimLeft(p + x) == x
  {
    if |p| == 0 {
      assert p + x == x;
    } else {
      assert (p + x)[1..] == p[1..] + x;
      TrimLeftSkips(p[1..], x);
    }
  }

  lemma {:induction false} TrimRightSkips(x: string, q: string)
    requires AllSpace(q) && |x| > 0 && !IsSpace(x[|x| - 1])
    ensures TrimRight(x + q) == x
  {
    if |q| == 0 {
      assert x + q == x;
    } else {
      assert (x + q)[..|x + q| - 1] == x + q[..|q| - 1];
      TrimRightSkips(x, q[..|q| - 1]);
    }
  }

  lemma TrimLeftFixed(s: string)
    requires s == [] || !IsSpace(s[0])
    ensures TrimLeft(s) == s
  {
  }

  lemma TrimRightFixed(s: string)
    requires s == [] || !IsSpace(s[|s| - 1])
    ensures TrimRight(s) == s
  {
  }

  /** ASCII `lower()` of one character. */
  function LowerChar(ch: char): char
  {
    if 'A' <= ch <= 'Z' then (ch as int + 32) as char else ch
  }

  predicate IsUpper(ch: char)
  {
    'A' <= ch <= 'Z'
  }

  /** `s.lower()`, letter by letter: no capital letter is left, each capital
      becomes its small letter and every other character stays. */
  function Lower(s: string): (r: string)
    ensures |r| == |s|
    ensures forall i :: 0 <= i < |s| ==> r[i] == LowerChar(s[i])
    ensures forall i :: 0 <= i < |r| ==> !IsUpper(r[i])
    ensures forall i :: 0 <= i < |s| && !IsUpper(s[i]) ==> r[i] == s[i]
    ensures forall i :: 0 <= i < |s| && IsUpper(s[i]) ==> r[i] as int == s[i] as int + 32
  {
    seq(|s|, i requires 0 <= i < |s| => LowerChar(s[i]))
  }

  /** Lowering twice is lowering once. */
  lemma LowerIdempotent(s: string)
    ensures Lower(Lower(s)) == Lower(s)
  {
    var l := Lower(s);
    assert forall i :: 0 <= i < |l| ==> Lower(l)[i] == l[i];
  }

  /** Python's `a < b` on strings: code point by code point, a proper
      prefix first. */
  predicate StrLess(a: string, b: string)
  {
    if |a| == 0 then |b| > 0
    else if |b| == 0 then false
    else a[0] < b[0] || (a[0] == b[0] && StrLess(a[1..], b[1..]))
  }

  lemma {:induction false} StrLessIrreflexive(a: string)
    ensures !StrLess(a, a)
  {
    if |a| > 0 { StrLessIrreflexive(a[1..]); }
  }

  lemma {:induction false} StrLessTransitive(a: string, b: string, c: string)
    requires StrLess(a, b) && StrLess(b, c)
    ensures StrLess(a, c)
  {
    if |a| > 0 && a[0] == b[0] && b[0] == c[0] {
      StrLessTransitive(a[1..], b[1..], c[1..]);
    }
  }

  /** Any two different strings are ordered one way or the other. */
  lemma {:induction false} StrLessTotal(a: string, b: string)
    requires a != b
    ensures StrLess(a, b) || StrLess(b, a)
  {
    if |a| > 0 && |b| > 0 && a[0] == b[0] {
      assert a == [a[0]] + a[1..] && b == [b[0]] + b[1..];
      StrLessTotal(a[1..], b[1..]);
    }
  }

  /** `needle` occurs in `hay` starting at position `i`. */
  predicate OccursAt(hay: string, needle: string, i: int)
  {
    0 <= i <= |hay| - |needle| && hay[i..i + |needle|] == needle
  }

  /** Substring search, as `needle in hay`. */
  predicate Contains(hay: string, needle: string)
  {
    (|needle| <= |hay| && hay[..|needle|] == needle) || (|hay| > 0 && Contains(hay[1..], needle))
  }

  /** The search finds exactly the positions where the needle occurs. */
  lemma {:induction false} ContainsIff(hay: string, needle: string)
    ensures Contains(hay, needle) <==> exists i :: OccursAt(hay, needle, i)
  {
    if |needle| <= |hay| && hay[..|needle|] == needle {
      assert OccursAt(hay, needle, 0);
    } else if |hay| > 0 {
      ContainsIff(hay[1..], needle);
      if Contains(hay[1..], needle) {
        var i :| OccursAt(hay[1..], needle, i);
        OccursShift(hay, needle, i);
      }
      if i :| OccursAt(hay, needle, i) {
        assert i != 0;
        OccursShift(hay, needle, i - 1);
      }
    }
  }

  /** An occurrence in the tail is an occurrence one place further on. */
  lemma OccursShift(hay: string, needle: string, i: int)
    requires |hay| > 0 && 0 <= i
    ensures OccursAt(hay[1..], needle, i) <==> OccursAt(hay, needle, i + 1)
  {
    if i <= |hay| - 1 - |needle| {
      assert hay[1..][i..i + |needle|] == hay[i + 1..i + 1 + |needle|];
    }
  }
}
