/** The render pass of the formatter, stated on values: the indent prefix
    (`_indentUnit`, generateIndent), the order of a row's elements (the stable sort
    by start offset), the spacing between them, and the order rows are visited in. */
module Rendering {
  import opened Cst
  import opened Spacing
  import opened Collection

  /** `n` copies of `s`, joined. */
  function Repeat(s: string, n: nat): (r: string)
    ensures |r| == n * |s|
  {
    if n == 0 then "" else s + Repeat(s, n - 1)
  }

  /** `_indentUnit`: `tabSize` spaces when spaces are inserted, otherwise one tab. */
  function IndentUnit(insertSpaces: bool, tabSize: nat): (r: string)
    ensures insertSpaces ==> |r| == tabSize && forall i :: 0 <= i < |r| ==> r[i] == ' '
    ensures !insertSpaces ==> r == "\t"
  {
    RepeatChars(" ", tabSize);
    if insertSpaces then Repeat(" ", tabSize) else "\t"
  }

  /** Every character of a repetition is a character of the repeated unit. */
  lemma {:induction false} RepeatChars(s: string, n: nat)
    ensures forall i :: 0 <= i < |Repeat(s, n)| ==> Repeat(s, n)[i] in s
  {
    if n > 0 {
      RepeatChars(s, n - 1);
      assert Repeat(s, n) == s + Repeat(s, n - 1);
    }
  }

  /** How many copies of `unit` begin `s`: the inverse of the indent. */
  function LeadingUnits(unit: string, s: string): nat
    decreases |s|
  {
    if |unit| > 0 && unit <= s then 1 + LeadingUnits(unit, s[|unit|..]) else 0
  }

  /** The indent can be read back: d units followed by text that does not itself
      begin with the unit are counted as exactly d units. */
  lemma {:induction false} LeadingUnitsOfIndent(unit: string, d: nat, rest: string)
    requires |unit| > 0 && !(unit <= rest)
    ensures LeadingUnits(unit, Repeat(unit, d) + rest) == d
  {
    if d > 0 {
      var s := Repeat(unit, d) + rest;
      assert s == unit + (Repeat(unit, d - 1) + rest);
      assert unit <= s;
      assert s[|unit|..] == Repeat(unit, d - 1) + rest;
      LeadingUnitsOfIndent(unit, d - 1, rest);
    } else {
      assert Repeat(unit, d) + rest == rest;
    }
  }

  // ---------------------------------------------------------------------------
  // Sorting a row by start offset (Array.prototype.sort is stable).
  // ---------------------------------------------------------------------------

  ghost predicate SortedByOffset(s: seq<XjElement>)
  {
    forall i, j :: 0 <= i < j < |s| ==> s[i].token.startOffset <= s[j].token.startOffset
  }

  /** Appending an element that no earlier element exceeds keeps a sequence sorted. */
  lemma SortedSnoc(s: seq<XjElement>, x: XjElement)
    requires SortedByOffset(s)
    requires forall y | y in s :: y.token.startOffset <= x.token.startOffset
    ensures SortedByOffset(s + [x])
  {
    var r := s + [x];
    forall i, j | 0 <= i < j < |r| ensures r[i].token.startOffset <= r[j].token.startOffset {
      if j == |s| {
        assert r[i] in s;
      }
    }
  }

  /** The last element of a sorted sequence has the greatest offset. */
  lemma LastIsMax(s: seq<XjElement>)
    requires SortedByOffset(s) && s != []
    ensures forall y | y in s :: y.token.startOffset <= s[|s| - 1].token.startOffset
  {
    forall y | y in s ensures y.token.startOffset <= s[|s| - 1].token.startOffset {
      var j :| 0 <= j < |s| && s[j] == y;
    }
  }

  /** Whatever holds the elements of a sorted sequence but its last one, plus an
      element with a smaller offset than that last one, stays below it. */
  lemma BelowLast(s: seq<XjElement>, x: XjElement, r: seq<XjElement>)
    requires SortedByOffset(s) && s != []
    requires x.token.startOffset < s[|s| - 1].token.startOffset
    requires multiset(r) == multiset(s[..|s| - 1]) + multiset{x}
    ensures forall y | y in r :: y.token.startOffset <= s[|s| - 1].token.startOffset
  {
    LastIsMax(s);
    forall y | y in r ensures y.token.startOffset <= s[|s| - 1].token.startOffset {
      assert y in multiset(r);
      if y != x {
        assert y in multiset(s[..|s| - 1]);
        assert y in s[..|s| - 1];
        assert y in s;
      }
    }
  }

  /** Puts `x` after the last element whose offset is not greater than its own. */
  function InsertByOffset(x: XjElement, s: seq<XjElement>): (r: seq<XjElement>)
    requires SortedByOffset(s)
    ensures SortedByOffset(r)
    ensures multiset(r) == multiset(s) + multiset{x}
    decreases |s|
  {
    if s == [] then [x]
    else if s[|s| - 1].token.startOffset <= x.token.startOffset then
      LastIsMax(s);
      SortedSnoc(s, x);
      s + [x]
    else
      var init, last := s[..|s| - 1], s[|s| - 1];
      assert s == init + [last];
      var r' := InsertByOffset(x, init);
      BelowLast(s, x, r');
      SortedSnoc(r', last);
      r' + [last]
  }

  /** `elms.sort((a, b) => a.token.startOffset - b.token.startOffset)`: a stable sort. */
  function SortByOffset(s: seq<XjElement>): (r: seq<XjElement>)
    ensures SortedByOffset(r)
    ensures multiset(r) == multiset(s)
    decreases |s|
  {
    if s == [] then []
    else
      var init := s[..|s| - 1];
      assert s == init + [s[|s| - 1]];
      InsertByOffset(s[|s| - 1], SortByOffset(init))
  }

  /** The elements of `s` that start at offset `o`, in order. */
  ghost function AtOffset(s: seq<XjElement>, o: int): seq<XjElement>
    decreases |s|
  {
    if s == [] then []
    else AtOffset(s[..|s| - 1], o) + Hit(s[|s| - 1], o)
  }

  /** `x` alone if it starts at `o`, nothing otherwise. */
  ghost function Hit(x: XjElement, o: int): seq<XjElement>
  {
    if x.token.startOffset == o then [x] else []
  }

  lemma AtOffsetSnoc(s: seq<XjElement>, x: XjElement, o: int)
    ensures AtOffset(s + [x], o) == AtOffset(s, o) + Hit(x, o)
  {
    assert (s + [x])[..|s|] == s;
  }

  lemma {:induction false} InsertStable(x: XjElement, s: seq<XjElement>, o: int)
    requires SortedByOffset(s)
    ensures AtOffset(InsertByOffset(x, s), o) == AtOffset(s, o) + Hit(x, o)
    decreases |s|
  {
    if s == [] {
      assert [x] == [] + [x];
      AtOffsetSnoc([], x, o);
    } else if s[|s| - 1].token.startOffset <= x.token.startOffset {
      AtOffsetSnoc(s, x, o);
    } else {
      var init, last := s[..|s| - 1], s[|s| - 1];
      assert s == init + [last];
      var r' := InsertByOffset(x, init);
      assert InsertByOffset(x, s) == r' + [last];
      InsertStable(x, init, o);
      AtOffsetSnoc(r', last, o);
      AtOffsetSnoc(init, last, o);
      HitsCommute(AtOffset(init, o), x, last, o);
    }
  }

  /** Two elements with different offsets can be filtered in either order. */
  lemma HitsCommute(a: seq<XjElement>, x: XjElement, y: XjElement, o: int)
    requires x.token.startOffset != y.token.startOffset
    ensures a + Hit(x, o) + Hit(y, o) == a + Hit(y, o) + Hit(x, o)
  {
    if x.token.startOffset == o {
      assert Hit(y, o) == [];
    } else {
      assert Hit(x, o) == [];
    }
  }

  /** The sort is stable: elements with equal offsets keep their relative order. */
  lemma {:induction false} SortStable(s: seq<XjElement>, o: int)
    ensures AtOffset(SortByOffset(s), o) == AtOffset(s, o)
    decreases |s|
  {
    if s != [] {
      var init, last := s[..|s| - 1], s[|s| - 1];
      assert s == init + [last];
      SortStable(init, o);
      InsertStable(last, SortByOffset(init), o);
      AtOffsetSnoc(init, last, o);
    }
  }

  // ---------------------------------------------------------------------------
  // Joining the images of a row.
  // ---------------------------------------------------------------------------

  /** The images of `elms` in order, each pair of neighbours separated by the
      separator of the spacing table. */
  function Spaced(elms: seq<XjElement>): string
    decreases |elms|
  {
    if |elms| == 0 then ""
    else if |elms| == 1 then elms[0].token.image
    else Spaced(elms[..|elms| - 1]) + Separator(elms[|elms| - 2], elms[|elms| - 1]) + elms[|elms| - 1].token.image
  }

  /** Joining one more element onto a prefix. */
  lemma SpacedStep(elms: seq<XjElement>, i: nat)
    requires i < |elms|
    ensures Spaced(elms[..i + 1]) == Spaced(elms[..i]) + (if i == 0 then "" else Separator(elms[i - 1], elms[i])) + elms[i].token.image
  {
    assert elms[..i + 1][..i] == elms[..i];
  }

  /** Regrouping a concatenation; stated once so that proofs can name the step. */
  lemma ConcatAssoc<T>(x: seq<T>, y: seq<T>, z: seq<T>)
    ensures x + (y + z) == (x + y) + z
  {
  }

  /** Joining one more element onto a sequence. */
  lemma SpacedSnoc(s: seq<XjElement>, x: XjElement)
    ensures Spaced(s + [x]) == Spaced(s) + (if s == [] then "" else Separator(s[|s| - 1], x)) + x.token.image
  {
    var r := s + [x];
    assert r[..|r| - 1] == s;
    assert r[|r| - 1] == x;
    if s != [] {
      assert r[|r| - 2] == s[|s| - 1];
    }
  }

  /** Joining splits at any point: the two halves are joined and then separated by
      the separator of the two neighbours at the cut. */
  lemma {:induction false} SpacedSplit(a: seq<XjElement>, b: seq<XjElement>)
    requires a != [] && b != []
    ensures Spaced(a + b) == Spaced(a) + Separator(a[|a| - 1], b[0]) + Spaced(b)
    decreases |b|
  {
    var b', y := b[..|b| - 1], b[|b| - 1];
    assert b == b' + [y];
    assert a + b == (a + b') + [y];
    SpacedSnoc(a + b', y);
    SpacedSnoc(b', y);
    var p := Spaced(a) + Separator(a[|a| - 1], b[0]);
    if b' == [] {
      assert a + b' == a;
    } else {
      var sep, sb', img := Separator(b'[|b'| - 1], y), Spaced(b'), y.token.image;
      assert (a + b')[|a + b'| - 1] == b'[|b'| - 1];
      SpacedSplit(a, b');
      assert b'[0] == b[0];
      assert Spaced(a + b) == ((p + sb') + sep) + img;
      assert Spaced(b) == (sb' + sep) + img;
      ConcatAssoc(p, sb' + sep, img);
      ConcatAssoc(p, sb', sep);
    }
  }

  /** The text of a row: the indent, then the images in offset order, spaced. */
  function RenderRow(unit: string, row: Row): string
    requires row.depth >= 0
  {
    Repeat(unit, row.depth) + Spaced(SortByOffset(row.elms))
  }

  /** A rendered row reads back as its depth in indent units followed by its
      spaced images, when the first image does not itself begin with the unit. */
  lemma RenderRowIndent(unit: string, row: Row)
    requires row.depth >= 0 && |unit| > 0
    requires !(unit <= Spaced(SortByOffset(row.elms)))
    ensures LeadingUnits(unit, RenderRow(unit, row)) == row.depth
    ensures RenderRow(unit, row)[|unit| * row.depth..] == Spaced(SortByOffset(row.elms))
  {
    LeadingUnitsOfIndent(unit, row.depth, Spaced(SortByOffset(row.elms)));
  }

  // ---------------------------------------------------------------------------
  // The order rows are visited in: Object.entries enumerates integer keys ascending.
  // ---------------------------------------------------------------------------

  /** A non-empty set of row indices has a least element. */
  lemma {:induction false} LeastOf(s: set<int>) returns (m: int)
    requires s != {}
    ensures m in s && forall x | x in s :: m <= x
    decreases |s|
  {
    if forall z :: z !in s {
      assert false;
    }
    var y :| y in s;
    if s == {y} {
      m := y;
    } else {
      var m' := LeastOf(s - {y});
      m := if y < m' then y else m';
      forall x | x in s ensures m <= x {
        if x != y {
          assert x in s - {y};
        }
      }
    }
  }

  function MinKey(s: set<int>): (m: int)
    requires s != {}
    ensures m in s && forall x | x in s :: m <= x
  {
    assert exists m :: m in s && forall x | x in s :: m <= x by {
      var least := LeastOf(s);
    }
    var m :| m in s && forall x | x in s :: m <= x; m
  }

  /** The keys of a row dictionary, in the order they are enumerated. */
  function SortedKeys(s: set<int>): (r: seq<int>)
    ensures forall i, j :: 0 <= i < j < |r| ==> r[i] < r[j]
    ensures forall k :: k in r <==> k in s
    decreases |s|
  {
    if s == {} then []
    else
      var m := MinKey(s);
      [m] + SortedKeys(s - {m})
  }
}
