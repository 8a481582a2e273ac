/** The collection pass of the formatter (exeIn and collectToken), stated on
    values. The walk is described by the sequence of collectToken calls it makes
    (`NodeEvents`), and the row dictionary it builds by folding collectToken's
    effect (`Record`) over that sequence (`RecordAll`). */
module Collection {
  import opened Cst

  /** Group labels that raise the depth counter while their elements are visited. */
  const IndentPrefixTypes: seq<string> := [
    "classBodyDeclaration",
    "methodDeclarator",
    "blockStatements",
    "argumentList"
  ]

  const MethodDeclarator: string := "methodDeclarator"

  /** How much a group with this label raises the counter. */
  function Bump(key: string): int
  {
    if key in IndentPrefixTypes then 1 else 0
  }

  /** The `noIndent` flag of a leaf: its parent node sits in a `methodDeclarator`
      group, and the leaf is the first or the last element of its own group. */
  predicate NoIndent(tAnc: Option<string>, i: nat, count: nat)
  {
    tAnc == Some(MethodDeclarator) && (i == 0 || i == count - 1)
  }

  /** One row of `_row2elms`: the depth fixed when it was created, and its elements. */
  datatype Row = Row(depth: int, elms: seq<XjElement>)

  /** One call collectToken(token, t, tAnc, noIndent), made while the counter holds `depth`. */
  datatype Event = Event(token: Token, t: string, tAnc: Option<string>, depth: int, noIndent: bool)

  function Elm(ev: Event): XjElement
  {
    XjElement(ev.token, ev.t, ev.tAnc)
  }

  /** The depth a row gets when this call creates it. */
  function CreateDepth(ev: Event): int
  {
    if ev.noIndent then ev.depth - 1 else ev.depth
  }

  /** The row index an event is recorded on, if it is recorded at all. */
  predicate OnRow(ev: Event, k: int)
  {
    ev.token.startLine == ev.token.endLine && ev.token.startLine - 1 == k
  }

  // ---------------------------------------------------------------------------
  // The walk: which collectToken calls exeIn(n, tAnc) makes when entered with
  // the counter at d.
  // ---------------------------------------------------------------------------

  /** The calls for a list of comments, each tagged with the current group label. */
  function CommentEvents(cs: seq<Token>, t: string, tAnc: Option<string>, d: int): seq<Event>
  {
    seq(|cs|, j requires 0 <= j < |cs| => Event(cs[j], t, tAnc, d, false))
  }

  /** The calls made for element i of group gi of n: first its comments, then
      those the element itself gives rise to. */
  ghost function ElemEvents(n: CstNode, gi: nat, i: nat, tAnc: Option<string>, d: int): seq<Event>
    requires gi < |n.children| && i < |n.children[gi].elems|
    decreases n, 0, 1
  {
    var g := n.children[gi];
    CommentEvents(Comments(g.elems[i]), g.key, tAnc, d + Bump(g.key)) + OwnEvents(n, gi, i, tAnc, d)
  }

  /** The calls the element itself gives rise to: the walk of a child node, or the
      leaf itself unless its image is empty. */
  ghost function OwnEvents(n: CstNode, gi: nat, i: nat, tAnc: Option<string>, d: int): seq<Event>
    requires gi < |n.children| && i < |n.children[gi].elems|
    decreases n, 0, 0
  {
    var g := n.children[gi];
    var e := g.elems[i];
    var dg := d + Bump(g.key);
    match e
    case Node(_, _, _) => NodeEvents(e, Some(g.key), dg)
    case Tok(tok, _, _) =>
      if tok.image != "" then [Event(tok, g.key, tAnc, dg, NoIndent(tAnc, i, |g.elems|))] else []
  }

  /** The walk of element i of group gi: a child node is walked one level deeper;
      a leaf gives one call unless its image is empty. */
  lemma OwnEventsCases(n: CstNode, gi: nat, i: nat, tAnc: Option<string>, d: int)
    requires gi < |n.children| && i < |n.children[gi].elems|
    ensures var g := n.children[gi]; var e := g.elems[i];
      && (e.Node? ==> OwnEvents(n, gi, i, tAnc, d) == NodeEvents(e, Some(g.key), d + Bump(g.key)))
      && (e.Tok? && e.token.image != "" ==>
            OwnEvents(n, gi, i, tAnc, d) == [Event(e.token, g.key, tAnc, d + Bump(g.key), NoIndent(tAnc, i, |g.elems|))])
      && (e.Tok? && e.token.image == "" ==> OwnEvents(n, gi, i, tAnc, d) == [])
  {
  }

  /** The calls made for the first i elements of group gi of n. */
  ghost function ElemsEvents(n: CstNode, gi: nat, i: nat, tAnc: Option<string>, d: int): seq<Event>
    requires gi < |n.children| && i <= |n.children[gi].elems|
    decreases n, 1, i
  {
    if i == 0 then [] else ElemsEvents(n, gi, i - 1, tAnc, d) + ElemEvents(n, gi, i - 1, tAnc, d)
  }

  /** The calls made for the first gi groups of n. */
  ghost function GroupsEvents(n: CstNode, gi: nat, tAnc: Option<string>, d: int): seq<Event>
    requires gi <= |n.children|
    decreases n, 2, gi
  {
    if gi == 0 then []
    else GroupsEvents(n, gi - 1, tAnc, d) + ElemsEvents(n, gi - 1, |n.children[gi - 1].elems|, tAnc, d)
  }

  /** The calls made by exeIn(n, tAnc) entered with the counter at d. */
  ghost function NodeEvents(n: CstNode, tAnc: Option<string>, d: int): seq<Event>
    decreases n, 3, 0
  {
    GroupsEvents(n, |n.children|, tAnc, d)
  }

  // ---------------------------------------------------------------------------
  // The row dictionary.
  // ---------------------------------------------------------------------------

  /** The effect of one collectToken call on `_row2elms`. */
  function Record(rows: map<int, Row>, ev: Event): map<int, Row>
  {
    if ev.token.startLine != ev.token.endLine then rows
    else
      var k := ev.token.startLine - 1;
      var row := if k in rows then rows[k] else Row(CreateDepth(ev), []);
      rows[k := Row(row.depth, row.elms + [Elm(ev)])]
  }

  /** The effect of a sequence of calls, in order. */
  ghost function RecordAll(rows: map<int, Row>, evs: seq<Event>): map<int, Row>
    decreases |evs|
  {
    if evs == [] then rows else RecordAll(Record(rows, evs[0]), evs[1..])
  }

  /** The elements that a sequence of calls appends to row k, in order. */
  ghost function RowEvents(evs: seq<Event>, k: int): seq<XjElement>
    decreases |evs|
  {
    if evs == [] then []
    else (if OnRow(evs[0], k) then [Elm(evs[0])] else []) + RowEvents(evs[1..], k)
  }

  /** The creation depth carried by the first call recorded on row k, if any. */
  ghost function FirstOnRow(evs: seq<Event>, k: int): (r: Option<int>)
    ensures r.Some? <==> RowEvents(evs, k) != []
    decreases |evs|
  {
    if evs == [] then None
    else if OnRow(evs[0], k) then Some(CreateDepth(evs[0]))
    else FirstOnRow(evs[1..], k)
  }

  /** The calls that record anything: those of single-line tokens. */
  ghost function SingleLine(evs: seq<Event>): (r: seq<Event>)
    decreases |evs|
  {
    if evs == [] then []
    else (if evs[0].token.startLine == evs[0].token.endLine then [evs[0]] else []) + SingleLine(evs[1..])
  }

  /** What the class keeps true of its rows: every row has an element, and every
      element of row k is a single-line token starting on line k + 1. */
  ghost predicate RowsOk(rows: map<int, Row>)
  {
    forall k | k in rows ::
      rows[k].elms != []
      && forall x | x in rows[k].elms :: x.token.startLine == x.token.endLine && x.token.startLine - 1 == k
  }

  /** No row has a negative depth. */
  ghost predicate DepthsOk(rows: map<int, Row>)
  {
    forall k | k in rows :: rows[k].depth >= 0
  }

  ghost predicate DepthsNonNegative(evs: seq<Event>)
  {
    forall ev | ev in evs :: CreateDepth(ev) >= 0
  }

  // ---------------------------------------------------------------------------
  // Lemmas about the row dictionary.
  // ---------------------------------------------------------------------------

  /** Recording two sequences of calls one after the other is recording their concatenation. */
  lemma {:induction false} RecordAllAppend(rows: map<int, Row>, a: seq<Event>, b: seq<Event>)
    ensures RecordAll(rows, a + b) == RecordAll(RecordAll(rows, a), b)
    decreases |a|
  {
    if a == [] {
      assert a + b == b;
    } else {
      assert (a + b)[0] == a[0];
      assert (a + b)[1..] == a[1..] + b;
      RecordAllAppend(Record(rows, a[0]), a[1..], b);
    }
  }

  /** Recording one more call after a sequence of calls. */
  lemma RecordAllSnoc(rows: map<int, Row>, evs: seq<Event>, ev: Event)
    ensures RecordAll(rows, evs + [ev]) == Record(RecordAll(rows, evs), ev)
  {
    RecordAllAppend(rows, evs, [ev]);
    assert [ev][1..] == [];
  }

  /** What row k holds after a sequence of calls: it exists exactly when it existed
      before or some call was recorded on it; its elements are the old ones followed
      by every call recorded on it, in call order; and its depth is the old depth
      if it existed, otherwise the creation depth of the first call on it. */
  lemma {:induction false} RecordAllRow(rows: map<int, Row>, evs: seq<Event>, k: int)
    ensures k in RecordAll(rows, evs) <==> k in rows || RowEvents(evs, k) != []
    ensures k in RecordAll(rows, evs) ==>
      RecordAll(rows, evs)[k].elms == (if k in rows then rows[k].elms else []) + RowEvents(evs, k)
    ensures k in RecordAll(rows, evs) ==>
      RecordAll(rows, evs)[k].depth == if k in rows then rows[k].depth else FirstOnRow(evs, k).value
    decreases |evs|
  {
    if evs != [] {
      var rows' := Record(rows, evs[0]);
      RecordAllRow(rows', evs[1..], k);
      if OnRow(evs[0], k) {
        assert k in rows';
        assert rows'[k].elms == (if k in rows then rows[k].elms else []) + [Elm(evs[0])];
      } else {
        assert (k in rows') == (k in rows);
        assert k in rows ==> rows'[k] == rows[k];
      }
    }
  }

  /** Calls for multi-line tokens change nothing: only the single-line ones matter. */
  lemma {:induction false} RecordAllSingleLine(rows: map<int, Row>, evs: seq<Event>)
    ensures RecordAll(rows, evs) == RecordAll(rows, SingleLine(evs))
    decreases |evs|
  {
    if evs != [] {
      RecordAllSingleLine(Record(rows, evs[0]), evs[1..]);
      if evs[0].token.startLine == evs[0].token.endLine {
        assert SingleLine(evs) == [evs[0]] + SingleLine(evs[1..]);
        assert SingleLine(evs)[0] == evs[0] && SingleLine(evs)[1..] == SingleLine(evs[1..]);
      } else {
        assert SingleLine(evs) == SingleLine(evs[1..]);
        RecordAllSingleLine(rows, evs[1..]);
      }
    }
  }

  /** Rows built from calls with non-negative creation depths keep the class invariant. */
  lemma {:induction false} RecordAllOk(rows: map<int, Row>, evs: seq<Event>)
    requires RowsOk(rows) && DepthsOk(rows)
    requires DepthsNonNegative(evs)
    ensures RowsOk(RecordAll(rows, evs)) && DepthsOk(RecordAll(rows, evs))
    decreases |evs|
  {
    if evs != [] {
      assert evs[0] in evs;
      assert forall ev | ev in evs[1..] :: ev in evs;
      RecordAllOk(Record(rows, evs[0]), evs[1..]);
    }
  }

  // ---------------------------------------------------------------------------
  // Lemmas about the walk.
  // ---------------------------------------------------------------------------

  /** Every collectToken call of a walk entered at a non-negative depth (and at
      depth one or more in a `methodDeclarator` group, which has itself raised the
      counter) creates rows at a non-negative depth. */
  lemma {:induction false} NodeEventsDepth(n: CstNode, tAnc: Option<string>, d: int)
    requires d >= 0 && (tAnc == Some(MethodDeclarator) ==> d >= 1)
    ensures DepthsNonNegative(NodeEvents(n, tAnc, d))
    decreases n, 3, 0
  {
    GroupsEventsDepth(n, |n.children|, tAnc, d);
  }

  lemma {:induction false} GroupsEventsDepth(n: CstNode, gi: nat, tAnc: Option<string>, d: int)
    requires gi <= |n.children|
    requires d >= 0 && (tAnc == Some(MethodDeclarator) ==> d >= 1)
    ensures DepthsNonNegative(GroupsEvents(n, gi, tAnc, d))
    decreases n, 2, gi
  {
    if gi > 0 {
      GroupsEventsDepth(n, gi - 1, tAnc, d);
      ElemsEventsDepth(n, gi - 1, |n.children[gi - 1].elems|, tAnc, d);
    }
  }

  lemma {:induction false} ElemsEventsDepth(n: CstNode, gi: nat, i: nat, tAnc: Option<string>, d: int)
    requires gi < |n.children| && i <= |n.children[gi].elems|
    requires d >= 0 && (tAnc == Some(MethodDeclarator) ==> d >= 1)
    ensures DepthsNonNegative(ElemsEvents(n, gi, i, tAnc, d))
    decreases n, 1, i
  {
    if i > 0 {
      ElemsEventsDepth(n, gi, i - 1, tAnc, d);
      ElemEventsDepth(n, gi, i - 1, tAnc, d);
    }
  }

  lemma {:induction false} ElemEventsDepth(n: CstNode, gi: nat, i: nat, tAnc: Option<string>, d: int)
    requires gi < |n.children| && i < |n.children[gi].elems|
    requires d >= 0 && (tAnc == Some(MethodDeclarator) ==> d >= 1)
    ensures DepthsNonNegative(ElemEvents(n, gi, i, tAnc, d))
    decreases n, 0, 1
  {
    var g := n.children[gi];
    var e := g.elems[i];
    if e.Node? {
      assert g in n.children && e in g.elems;
      NodeEventsDepth(e, Some(g.key), d + Bump(g.key));
    }
  }

  /** The comments inside a node: those attached to any element below it. */
  ghost function NodeComments(n: CstNode): set<Token>
    decreases n, 3, 0
  {
    GroupsComments(n, |n.children|)
  }

  ghost function GroupsComments(n: CstNode, gi: nat): set<Token>
    requires gi <= |n.children|
    decreases n, 2, gi
  {
    if gi == 0 then {} else GroupsComments(n, gi - 1) + ElemsComments(n, gi - 1, |n.children[gi - 1].elems|)
  }

  ghost function ElemsComments(n: CstNode, gi: nat, i: nat): set<Token>
    requires gi < |n.children| && i <= |n.children[gi].elems|
    decreases n, 1, i
  {
    if i == 0 then {} else ElemsComments(n, gi, i - 1) + ElemComments(n, gi, i - 1)
  }

  ghost function ElemComments(n: CstNode, gi: nat, i: nat): set<Token>
    requires gi < |n.children| && i < |n.children[gi].elems|
    decreases n, 0, 0
  {
    var e := n.children[gi].elems[i];
    (set c | c in Comments(e)) + if e.Node? then NodeComments(e) else {}
  }

  ghost predicate ImagesOrComments(evs: seq<Event>, cs: set<Token>)
  {
    forall ev | ev in evs :: ev.token.image != "" || ev.token in cs
  }

  /** Leaves with an empty image are never collected: every collected token with an
      empty image is one of the comments inside the node. */
  lemma {:induction false} NodeEventsImages(n: CstNode, tAnc: Option<string>, d: int)
    ensures ImagesOrComments(NodeEvents(n, tAnc, d), NodeComments(n))
    decreases n, 3, 0
  {
    GroupsEventsImages(n, |n.children|, tAnc, d);
  }

  lemma {:induction false} GroupsEventsImages(n: CstNode, gi: nat, tAnc: Option<string>, d: int)
    requires gi <= |n.children|
    ensures ImagesOrComments(GroupsEvents(n, gi, tAnc, d), GroupsComments(n, gi))
    decreases n, 2, gi
  {
    if gi > 0 {
      GroupsEventsImages(n, gi - 1, tAnc, d);
      ElemsEventsImages(n, gi - 1, |n.children[gi - 1].elems|, tAnc, d);
    }
  }

  lemma {:induction false} ElemsEventsImages(n: CstNode, gi: nat, i: nat, tAnc: Option<string>, d: int)
    requires gi < |n.children| && i <= |n.children[gi].elems|
    ensures ImagesOrComments(ElemsEvents(n, gi, i, tAnc, d), ElemsComments(n, gi, i))
    decreases n, 1, i
  {
    if i > 0 {
      ElemsEventsImages(n, gi, i - 1, tAnc, d);
      ElemEventsImages(n, gi, i - 1, tAnc, d);
    }
  }

  lemma {:induction false} ElemEventsImages(n: CstNode, gi: nat, i: nat, tAnc: Option<string>, d: int)
    requires gi < |n.children| && i < |n.children[gi].elems|
    ensures ImagesOrComments(ElemEvents(n, gi, i, tAnc, d), ElemComments(n, gi, i))
    decreases n, 0, 1
  {
    var g := n.children[gi];
    var e := g.elems[i];
    if e.Node? {
      assert g in n.children && e in g.elems;
      NodeEventsImages(e, Some(g.key), d + Bump(g.key));
    }
  }

  /** An element's comments are collected before the element itself, and a leaf
      with a non-empty image is collected right after its comments. */
  lemma CommentsFirst(n: CstNode, gi: nat, i: nat, tAnc: Option<string>, d: int)
    requires gi < |n.children| && i < |n.children[gi].elems|
    ensures var e := n.children[gi].elems[i];
      var evs := ElemEvents(n, gi, i, tAnc, d);
      |evs| >= |Comments(e)|
      && (forall j :: 0 <= j < |Comments(e)| ==> evs[j].token == Comments(e)[j])
      && (e.Tok? && e.token.image != "" ==> |evs| == |Comments(e)| + 1 && evs[|Comments(e)|].token == e.token)
  {
  }
}
