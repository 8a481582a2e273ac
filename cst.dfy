/** The concrete syntax tree that java-parser hands to the formatter, and the
    per-token record (XjElement) that the formatter keeps for each placed token. */
module Cst {

  datatype Option<T> = None | Some(value: T)

  /** A terminal of the tree (java-parser's IToken). Comments attached to an
      element have the same shape. Lines are 1-based, as the parser reports them. */
  datatype Token = Token(image: string, startLine: int, endLine: int, startOffset: int)

  /** A child element (java-parser's CstElement): either a grammar-rule node whose
      `children` record is kept as a sequence of labelled groups in declared order,
      or a leaf token. Both kinds may carry leading and trailing comments. */
  datatype Elem =
    | Node(children: seq<Group>, leadingComments: seq<Token>, trailingComments: seq<Token>)
    | Tok(token: Token, leadingComments: seq<Token>, trailingComments: seq<Token>)

  /** One entry of a node's `children` record: the group key (its label) and its elements. */
  datatype Group = Group(key: string, elems: seq<Elem>)

  /** A node, as opposed to a leaf. */
  type CstNode = e: Elem | e.Node? witness Node([], [], [])

  /** The `isNode` test: nodes are the elements that carry a location. */
  predicate IsNode(e: Elem)
  {
    e.Node?
  }

  /** Leading comments followed by trailing comments, the order in which they are collected. */
  function Comments(e: Elem): seq<Token>
  {
    e.leadingComments + e.trailingComments
  }

  /** The `hasComments` test. */
  function HasComments(e: Elem): (r: bool)
    ensures r <==> Comments(e) != []
  {
    |e.leadingComments| > 0 || |e.trailingComments| > 0
  }

  /** What a row keeps of every token placed on it: the token, the label `t` of the
      group it sits in, and the label `tAnc` of the group its parent node sits in
      (None for children of the root). */
  datatype XjElement = XjElement(token: Token, t: string, tAnc: Option<string>)
}
