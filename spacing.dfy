/** The `_nospaceCheckers` table: eight predicates over a pair of neighbouring
    elements (before, element); when any holds, no space separates them. */
module Spacing {
  import opened Cst

  type Checker = (XjElement, XjElement) -> bool

  /** No space after `.`, nor before `;`, `.` or `,`. */
  predicate AfterDotOrBeforePunctuation(b: XjElement, e: XjElement)
  {
    "Dot" == b.t || e.t in ["Semicolon", "Dot", "Comma"]
  }

  /** No space after `{` nor before `}`. */
  predicate InsideBraces(b: XjElement, e: XjElement)
  {
    "LBrace" == b.t || "RBrace" == e.t
  }

  /** No space before `{` unless it follows `if`, `for`, `while` or `switch`. */
  predicate BeforeBrace(b: XjElement, e: XjElement)
  {
    b.t !in ["If", "For", "While", "Switch"] && "LBrace" == e.t
  }

  /** No space after the `<` or before the `>` of a type-parameter list. */
  predicate TypeParameterBrackets(b: XjElement, e: XjElement)
  {
    (b.tAnc == Some("typeParameters") && b.t == "Less")
    || (e.tAnc == Some("typeParameters") && e.t == "Greater")
  }

  /** No space after the `<` or before the `>` of a type-argument list. */
  predicate TypeArgumentBrackets(b: XjElement, e: XjElement)
  {
    (b.tAnc == Some("typeArguments") && b.t == "Less")
    || (e.tAnc == Some("typeArguments") && e.t == "Greater")
  }

  /** No space before the `<` that opens a type-argument list. */
  predicate BeforeTypeArgumentOpen(b: XjElement, e: XjElement)
  {
    e.tAnc == Some("typeArguments") && e.t == "Less"
  }

  /** No space after a unary prefix operator. */
  predicate AfterUnaryPrefix(b: XjElement, e: XjElement)
  {
    "UnaryPrefixOperator" == b.t
  }

  /** No space after the `@` of an annotation. */
  predicate AfterAnnotation(b: XjElement, e: XjElement)
  {
    "At" == b.t
  }

  /** The table, in its declared order. */
  const NoSpaceCheckers: seq<Checker> := [
    AfterDotOrBeforePunctuation,
    InsideBraces,
    BeforeBrace,
    TypeParameterBrackets,
    TypeArgumentBrackets,
    BeforeTypeArgumentOpen,
    AfterUnaryPrefix,
    AfterAnnotation
  ]

  /** `cs.some(c => c(b, e))`. */
  function AnyMatches(cs: seq<Checker>, b: XjElement, e: XjElement): (r: bool)
    ensures r <==> exists i :: 0 <= i < |cs| && cs[i](b, e)
    decreases |cs|
  {
    |cs| > 0 && (cs[0](b, e) || AnyMatches(cs[1..], b, e))
  }

  /** True when no space goes between `b` and the element `e` that follows it. */
  predicate NoSpace(b: XjElement, e: XjElement)
  {
    AnyMatches(NoSpaceCheckers, b, e)
  }

  /** What goes between two neighbouring elements of a rendered row. */
  function Separator(b: XjElement, e: XjElement): string
  {
    if NoSpace(b, e) then "" else " "
  }

  /** The table read as one condition: suppression holds exactly when one of the
      eight predicates does. */
  lemma NoSpaceTable(b: XjElement, e: XjElement)
    ensures NoSpace(b, e) <==>
      AfterDotOrBeforePunctuation(b, e) || InsideBraces(b, e) || BeforeBrace(b, e)
      || TypeParameterBrackets(b, e) || TypeArgumentBrackets(b, e)
      || BeforeTypeArgumentOpen(b, e) || AfterUnaryPrefix(b, e) || AfterAnnotation(b, e)
  {
    var cs := NoSpaceCheckers;
    assert cs[0] == AfterDotOrBeforePunctuation && cs[1] == InsideBraces && cs[2] == BeforeBrace;
    assert cs[3] == TypeParameterBrackets && cs[4] == TypeArgumentBrackets;
    assert cs[5] == BeforeTypeArgumentOpen && cs[6] == AfterUnaryPrefix && cs[7] == AfterAnnotation;
  }

  /** Labels that some predicate of the table mentions. */
  const SpecialLabels: seq<string> := [
    "Dot", "Semicolon", "Comma", "LBrace", "RBrace", "Less", "Greater", "UnaryPrefixOperator", "At"
  ]

  /** There is never a space after a dot, nor before a semicolon, dot or comma. */
  lemma NoSpaceAroundDot(b: XjElement, e: XjElement)
    requires b.t == "Dot" || e.t == "Semicolon" || e.t == "Dot" || e.t == "Comma"
    ensures Separator(b, e) == ""
  {
    NoSpaceTable(b, e);
  }

  /** Before an opening brace the space is kept exactly when the previous label is
      `If`, `For`, `While` or `Switch`. */
  lemma SpaceBeforeBrace(b: XjElement, e: XjElement)
    requires e.t == "LBrace"
    ensures Separator(b, e) == " " <==> b.t in ["If", "For", "While", "Switch"]
  {
    NoSpaceTable(b, e);
  }

  /** Two neighbours whose labels the table never mentions are separated by exactly one space. */
  lemma OrdinaryNeighboursSpaced(b: XjElement, e: XjElement)
    requires b.t !in SpecialLabels && e.t !in SpecialLabels
    ensures Separator(b, e) == " "
  {
    NoSpaceTable(b, e);
  }
}
