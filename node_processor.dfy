/** The formatter object: one NodeProcessor per set of formatting options. It
    walks a tree, records every single-line token against its row, then renders
    every recorded row as one whole-line edit. */
module Processor {
  import opened Cst
  import opened Spacing
  import opened Collection
  import opened Rendering

  /** A whole-line replacement: the 0-based row and its new text. */
  datatype Edit = Edit(row: int, text: string)

  /** The edits for the given rows of `rows`, in the given order. */
  function RenderRows(unit: string, rows: map<int, Row>, keys: seq<int>): (r: seq<Edit>)
    requires DepthsOk(rows) && forall k | k in keys :: k in rows
    ensures |r| == |keys|
    ensures forall j :: 0 <= j < |keys| ==> r[j].row == keys[j] && r[j].text == RenderRow(unit, rows[keys[j]])
    decreases |keys|
  {
    if keys == [] then []
    else
      var k := keys[0];
      assert k in keys && k in rows;
      [Edit(k, RenderRow(unit, rows[k]))] + RenderRows(unit, rows, keys[1..])
  }

  /** A row with its elements put in offset order, as scanTextLine leaves it. */
  function SortedRow(row: Row): Row
  {
    Row(row.depth, SortByOffset(row.elms))
  }

  /** Every row of `rows`, sorted. */
  function SortRows(rows: map<int, Row>): map<int, Row>
  {
    map k | k in rows :: SortedRow(rows[k])
  }

  /** Rendering one more row after a list of rows. */
  lemma RenderRowsSnoc(unit: string, rows: map<int, Row>, keys: seq<int>, k: int)
    requires DepthsOk(rows) && k in rows && forall x | x in keys :: x in rows
    ensures RenderRows(unit, rows, keys + [k]) == RenderRows(unit, rows, keys) + [Edit(k, RenderRow(unit, rows[k]))]
  {
    var a, b := RenderRows(unit, rows, keys + [k]), RenderRows(unit, rows, keys) + [Edit(k, RenderRow(unit, rows[k]))];
    assert |a| == |b|;
    forall j | 0 <= j < |a| ensures a[j] == b[j] {
      if j < |keys| {
        assert (keys + [k])[j] == keys[j];
      }
    }
  }

  /** The dictionary part way through exe's render loop: the rows listed in `done`
      sorted, the others as the walk left them. */
  ghost function PartlySorted(rows: map<int, Row>, done: seq<int>): map<int, Row>
  {
    map k | k in rows :: if k in done then SortedRow(rows[k]) else rows[k]
  }

  /** Sorting row k of the part-way dictionary adds k to the sorted rows. */
  lemma PartlySortedStep(rows: map<int, Row>, done: seq<int>, k: int)
    requires k in rows
    ensures PartlySorted(rows, done + [k]) == PartlySorted(rows, done)[k := SortedRow(rows[k])]
  {
  }

  /** One pass of exe's render loop over the listed rows: row keys[idx] is still as
      the walk left it, and sorting it extends the sorted part by one row. */
  lemma ScanRowsSorted(rows: map<int, Row>, keys: seq<int>, idx: nat)
    requires forall k | k in keys :: k in rows
    requires forall i, j :: 0 <= i < j < |keys| ==> keys[i] < keys[j]
    requires idx < |keys|
    ensures keys[idx] in rows && keys[idx] in PartlySorted(rows, keys[..idx])
    ensures PartlySorted(rows, keys[..idx])[keys[idx]] == rows[keys[idx]]
    ensures PartlySorted(rows, keys[..idx + 1]) == PartlySorted(rows, keys[..idx])[keys[idx] := SortedRow(rows[keys[idx]])]
  {
    var k := keys[idx];
    assert k in keys;
    assert k !in keys[..idx] by {
      forall j | 0 <= j < idx ensures keys[j] != k {
      }
    }
    assert keys[..idx + 1] == keys[..idx] + [k];
    PartlySortedStep(rows, keys[..idx], k);
  }

  /** One pass of exe's render loop over the listed rows appends the edit of row keys[idx]. */
  lemma ScanRowsEdits(unit: string, rows: map<int, Row>, keys: seq<int>, idx: nat)
    requires DepthsOk(rows) && forall k | k in keys :: k in rows
    requires idx < |keys|
    ensures var k := keys[idx];
      && k in rows
      && RenderRows(unit, rows, keys[..idx + 1]) == RenderRows(unit, rows, keys[..idx]) + [Edit(k, RenderRow(unit, rows[k]))]
  {
    var k := keys[idx];
    assert k in keys;
    assert keys[..idx + 1] == keys[..idx] + [k];
    RenderRowsSnoc(unit, rows, keys[..idx], k);
  }

  /** Once every row is listed, the part-way dictionary is the sorted one. */
  lemma PartlySortedAll(rows: map<int, Row>, done: seq<int>)
    requires forall k :: k in done <==> k in rows
    ensures PartlySorted(rows, done) == SortRows(rows)
  {
    var a, b := PartlySorted(rows, done), SortRows(rows);
    assert a.Keys == b.Keys;
    forall k | k in a ensures a[k] == b[k] {
      assert k in done;
    }
  }

  /** Exe emits exactly one edit per recorded row, rows in ascending order, and none
      for a row that received nothing. */
  lemma OneEditPerRow(unit: string, rows: map<int, Row>)
    requires DepthsOk(rows)
    ensures var es := RenderRows(unit, rows, SortedKeys(rows.Keys));
      |es| == |rows|
      && (forall i, j :: 0 <= i < j < |es| ==> es[i].row < es[j].row)
      && (forall k :: k in rows <==> exists j :: 0 <= j < |es| && es[j].row == k)
  {
    var keys := SortedKeys(rows.Keys);
    var es := RenderRows(unit, rows, keys);
    assert forall j | 0 <= j < |es| :: es[j].row == keys[j];
    forall k ensures k in rows <==> exists j :: 0 <= j < |es| && es[j].row == k {
      if k in rows {
        assert k in keys;
        var j :| 0 <= j < |keys| && keys[j] == k;
        assert es[j].row == k;
      }
      if exists j :: 0 <= j < |es| && es[j].row == k {
        var j :| 0 <= j < |es| && es[j].row == k;
        assert keys[j] in keys;
      }
    }
    DistinctSize(keys, rows.Keys);
    assert |rows.Keys| == |rows|;
  }

  /** The number of distinct elements of a strictly increasing sequence. */
  lemma {:induction false} DistinctSize(keys: seq<int>, s: set<int>)
    requires forall i, j :: 0 <= i < j < |keys| ==> keys[i] < keys[j]
    requires forall k :: k in keys <==> k in s
    ensures |keys| == |s|
    decreases |keys|
  {
    if keys != [] {
      assert keys[0] in keys;
      var rest := keys[1..];
      assert keys[0] !in rest by {
        forall j | 0 <= j < |rest| ensures rest[j] != keys[0] {
          assert rest[j] == keys[j + 1];
        }
      }
      forall k ensures k in rest <==> k in s - {keys[0]} {
        if k in rest {
          var j :| 0 <= j < |rest| && rest[j] == k;
          assert keys[j + 1] == k;
        }
        if k in s - {keys[0]} {
          var j :| 0 <= j < |keys| && keys[j] == k;
          assert j != 0;
          assert rest[j - 1] == k;
        }
      }
      DistinctSize(rest, s - {keys[0]});
      assert keys[0] in s;
      assert |s - {keys[0]}| == |s| - 1;
    } else {
      assert forall k :: k !in s;
      assert s == {};
    }
  }

  /** Sorting one row keeps the class invariant: sorting neither adds nor drops elements. */
  lemma SortedRowOk(rows: map<int, Row>, k: int)
    requires RowsOk(rows) && DepthsOk(rows) && k in rows
    ensures RowsOk(rows[k := SortedRow(rows[k])]) && DepthsOk(rows[k := SortedRow(rows[k])])
  {
    var elms := rows[k].elms;
    var sorted := SortByOffset(elms);
    forall x ensures x in sorted <==> x in elms {
      assert x in sorted <==> x in multiset(sorted);
      assert x in elms <==> x in multiset(elms);
    }
    assert |sorted| == |multiset(sorted)| == |multiset(elms)| == |elms|;
  }

  class NodeProcessor {
    /** The host's formatting options. */
    const insertSpaces: bool
    const tabSize: nat
    /** `_indentUnit`. */
    const indentUnit: string := IndentUnit(insertSpaces, tabSize)

    /** The depth counter (held in an AsyncLocalStorage store in the TypeScript source). */
    var depth: int
    /** `_row2elms`. */
    var rows: map<int, Row>
    /** `_edits`. */
    var edits: seq<Edit>

    ghost predicate Valid()
      reads this
    {
      RowsOk(rows) && DepthsOk(rows)
    }

    constructor (insertSpaces: bool, tabSize: nat)
      ensures Valid()
      ensures this.insertSpaces == insertSpaces && this.tabSize == tabSize
      ensures depth == 0 && rows == map[] && edits == []
    {
      this.insertSpaces := insertSpaces;
      this.tabSize := tabSize;
      depth := 0;
      rows := map[];
      edits := [];
    }

    /** `generateIndent`: the indent unit repeated d times, so d * tabSize spaces or d tabs. */
    function GenerateIndent(d: nat): (r: string)
      ensures |r| == d * |indentUnit|
      ensures insertSpaces ==> |r| == d * tabSize && forall i :: 0 <= i < |r| ==> r[i] == ' '
      ensures !insertSpaces ==> |r| == d && forall i :: 0 <= i < |r| ==> r[i] == '\t'
    {
      RepeatChars(indentUnit, d);
      Repeat(indentUnit, d)
    }

    /** `exe`: collects the tree with the counter starting at 0, then emits one edit
        per row of `_row2elms` in ascending row order, and returns `_edits`. Rows and
        edits left by earlier calls are kept, as in the TypeScript source. */
    method Exe(n: CstNode) returns (r: seq<Edit>)
      requires Valid()
      modifies this
      ensures Valid() && depth == 0
      ensures var c := RecordAll(old(rows), NodeEvents(n, None, 0));
        && DepthsOk(c)
        && rows == SortRows(c)
        && edits == old(edits) + RenderRows(indentUnit, c, SortedKeys(c.Keys))
      ensures r == edits
    {
      depth := 0;
      ExeIn(n, None);
      NodeEventsDepth(n, None, 0);
      RecordAllOk(old(rows), NodeEvents(n, None, 0));
      ghost var c := rows;
      var keys := SortedKeys(rows.Keys);
      ScanRows(keys);
      PartlySortedAll(c, keys);
      r := edits;
    }

    /** The `forEach` of `exe`: scans the listed rows in the order given. Each is
        sorted in place and rendered from the elements the walk left in it. */
    method ScanRows(keys: seq<int>)
      requires Valid() && forall k | k in keys :: k in rows
      requires forall i, j :: 0 <= i < j < |keys| ==> keys[i] < keys[j]
      modifies this
      ensures Valid() && depth == old(depth)
      ensures rows == PartlySorted(old(rows), keys)
      ensures edits == old(edits) + RenderRows(indentUnit, old(rows), keys)
    {
      ghost var c, e0 := rows, edits;
      assert rows == PartlySorted(c, keys[..0]);
      for idx := 0 to |keys|
        invariant Valid() && depth == old(depth)
        invariant rows == PartlySorted(c, keys[..idx])
        invariant edits == e0 + RenderRows(indentUnit, c, keys[..idx])
      {
        var k := keys[idx];
        ScanRowsSorted(c, keys, idx);
        ScanRowsEdits(indentUnit, c, keys, idx);
        ghost var done, ed := RenderRows(indentUnit, c, keys[..idx]), Edit(k, RenderRow(indentUnit, c[k]));
        ScanTextLine(k);
        ConcatAssoc(e0, done, [ed]);
      }
      assert keys[..|keys|] == keys;
    }

    /** `exeIn`: visits the groups of n in their declared order, each as ExeGroup
        does; the counter is back at its entry value afterwards and the dictionary
        holds the calls of the whole walk. */
    method ExeIn(n: CstNode, tAnc: Option<string>)
      modifies this
      ensures depth == old(depth) && edits == old(edits)
      ensures rows == RecordAll(old(rows), NodeEvents(n, tAnc, old(depth)))
      decreases n, 2
    {
      ghost var rows0, d := rows, depth;
      var gi := 0;
      while gi < |n.children|
        invariant gi <= |n.children|
        invariant depth == d && edits == old(edits)
        invariant rows == RecordAll(rows0, GroupsEvents(n, gi, tAnc, d))
      {
        ghost var G := GroupsEvents(n, gi, tAnc, d);
        ExeGroup(n, gi, tAnc);
        RecordAllAppend(rows0, G, ElemsEvents(n, gi, |n.children[gi].elems|, tAnc, d));
        gi := gi + 1;
      }
    }

    /** One group of `exeIn`'s outer loop: raises the counter for an indent-prefix
        group, visits the elements in order as ExeElem does, and lowers the counter
        again. */
    method ExeGroup(n: CstNode, gi: nat, tAnc: Option<string>)
      requires gi < |n.children|
      modifies this
      ensures depth == old(depth) && edits == old(edits)
      ensures rows == RecordAll(old(rows), ElemsEvents(n, gi, |n.children[gi].elems|, tAnc, old(depth)))
      decreases n, 1
    {
      ghost var rows0, d := rows, depth;
      var group := n.children[gi];
      var doIndent := group.key in IndentPrefixTypes;
      if doIndent {
        depth := depth + 1;
      }
      var i := 0;
      while i < |group.elems|
        invariant i <= |group.elems|
        invariant depth == d + Bump(group.key) && edits == old(edits)
        invariant rows == RecordAll(rows0, ElemsEvents(n, gi, i, tAnc, d))
      {
        ExeElem(n, gi, i, tAnc, d);
        RecordAllAppend(rows0, ElemsEvents(n, gi, i, tAnc, d), ElemEvents(n, gi, i, tAnc, d));
        i := i + 1;
      }
      if doIndent {
        depth := depth - 1;
      }
    }

    /** One element of `exeIn`'s inner loop, with the counter already raised for its
        group (`d` is the counter on entry to the node): collects the element's
        comments, then walks it if it is a node, or collects it if it is a leaf with
        a non-empty image. */
    method ExeElem(n: CstNode, gi: nat, i: nat, tAnc: Option<string>, ghost d: int)
      requires gi < |n.children| && i < |n.children[gi].elems|
      requires depth == d + Bump(n.children[gi].key)
      modifies this
      ensures depth == old(depth) && edits == old(edits)
      ensures rows == RecordAll(old(rows), ElemEvents(n, gi, i, tAnc, d))
      decreases n, 0
    {
      var group := n.children[gi];
      var elm := group.elems[i];
      if HasComments(elm) {
        var comments := elm.leadingComments + elm.trailingComments;
        CollectComments(comments, group.key, tAnc);
      }
      ghost var commented := rows;
      ghost var C, O := CommentEvents(Comments(elm), group.key, tAnc, depth), OwnEvents(n, gi, i, tAnc, d);
      assert commented == RecordAll(old(rows), C);
      OwnEventsCases(n, gi, i, tAnc, d);
      assert elm in group.elems && group in n.children;
      if IsNode(elm) {
        ExeIn(elm, Some(group.key));
      } else if elm.token.image != "" {
        var noIndent := tAnc == Some(MethodDeclarator) && (i == 0 || i == |group.elems| - 1);
        CollectToken(elm.token, group.key, tAnc, noIndent);
        RecordAllSnoc(commented, [], Event(elm.token, group.key, tAnc, depth, noIndent));
      }
      assert rows == RecordAll(commented, O);
      RecordAllAppend(old(rows), C, O);
    }

    /** `comments.forEach(c => this.collectToken(c, type, tAnc))`: every comment is
        collected, in order, at the current depth and without the noIndent flag. */
    method CollectComments(comments: seq<Token>, t: string, tAnc: Option<string>)
      modifies this
      ensures depth == old(depth) && edits == old(edits)
      ensures rows == RecordAll(old(rows), CommentEvents(comments, t, tAnc, old(depth)))
    {
      ghost var before := rows;
      for j := 0 to |comments|
        invariant depth == old(depth) && edits == old(edits)
        invariant rows == RecordAll(before, CommentEvents(comments[..j], t, tAnc, depth))
      {
        ghost var ce := CommentEvents(comments[..j], t, tAnc, depth);
        ghost var ev := Event(comments[j], t, tAnc, depth, false);
        CollectToken(comments[j], t, tAnc, false);
        RecordAllSnoc(before, ce, ev);
        assert CommentEvents(comments[..j + 1], t, tAnc, depth) == ce + [ev];
      }
      assert comments[..|comments|] == comments;
    }

    /** `collectToken`: a multi-line token is ignored; otherwise row startLine - 1 is
        created, if absent, at the current depth (one less for a noIndent token), and
        the element is appended to it. */
    method CollectToken(elm: Token, t: string, tAnc: Option<string>, noIndent: bool)
      modifies this
      ensures depth == old(depth) && edits == old(edits)
      ensures rows == Record(old(rows), Event(elm, t, tAnc, old(depth), noIndent))
    {
      if elm.startLine != elm.endLine {
        return;
      }
      var rowIdx := elm.startLine - 1;
      if rowIdx !in rows {
        var rowDepth := depth;
        if noIndent {
          rowDepth := rowDepth - 1;
        }
        rows := rows[rowIdx := Row(rowDepth, [])];
      }
      rows := rows[rowIdx := Row(rows[rowIdx].depth, rows[rowIdx].elms + [XjElement(elm, t, tAnc)])];
    }

    /** `scanTextLine`: sorts the row's elements by start offset in place, builds the
        indent followed by the images, a space between neighbours unless a checker of
        the spacing table matches, and pushes one edit for the row. */
    method ScanTextLine(row: int)
      requires Valid() && row in rows
      modifies this
      ensures Valid() && depth == old(depth)
      ensures rows == old(rows)[row := SortedRow(old(rows)[row])]
      ensures edits == old(edits) + [Edit(row, RenderRow(indentUnit, old(rows)[row]))]
    {
      var r := rows[row];
      var elms := SortByOffset(r.elms);
      SortedRowOk(rows, row);
      rows := rows[row := Row(r.depth, elms)];
      var indent := GenerateIndent(r.depth);
      var text := indent;
      var before: Option<XjElement> := None;
      for i := 0 to |elms|
        modifies {}
        invariant text == indent + Spaced(elms[..i])
        invariant before == if i == 0 then None else Some(elms[i - 1])
      {
        var elm := elms[i];
        ghost var done := Spaced(elms[..i]);
        ghost var sep := if i == 0 then "" else Separator(elms[i - 1], elm);
        SpacedStep(elms, i);
        if before.Some? && !NoSpace(before.value, elm) {
          text := text + " ";
        }
        assert text == indent + done + sep;
        text := text + elm.token.image;
        ConcatAssoc(indent, done + sep, elm.token.image);
        ConcatAssoc(indent, done, sep);
        before := Some(elm);
      }
      assert elms[..|elms|] == elms;
      edits := edits + [Edit(row, text)];
    }
  }
}
