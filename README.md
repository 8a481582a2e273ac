# xj_formatter formatting engine, modelled in Dafny

xj_formatter is a Java formatter. Its engine is the class `NodeProcessor` in
`src/prcs/node-processor.ts`. It walks the concrete syntax tree that java-parser
produces and makes two passes.

- **Collection pass** (`exeIn`, `collectToken`).
  - A depth counter goes up by one while the elements of a child group labelled
    `classBodyDeclaration`, `methodDeclarator`, `blockStatements` or
    `argumentList` are visited.
  - Every single-line token with a non-empty image is appended to the row keyed
    `startLine - 1`, and so is every single-line comment attached to an element.
  - A row's depth is fixed by the first token that lands on it.
  - A leaf that is the first or last element of its own child group, inside a
    node that sits in a `methodDeclarator` group, creates its row one level
    shallower.
- **Render pass** (`scanTextLine`, `generateIndent`).
  - Each row is sorted by start offset, in place.
  - The row becomes the indent unit repeated `depth` times, followed by the token
    images.
  - One space separates two neighbours unless one of the eight `_nospaceCheckers`
    predicates holds.
  - Each row yields one whole-line edit, and the rows are visited in ascending
    order.

The model has five modules.

- `Cst` (cst.dfy): the tree, the tokens, the per-token record `XjElement`, and the
  helpers `isNode` and `hasComments`.
- `Spacing` (spacing.dfy): the `_nospaceCheckers` table, kept as a sequence of
  eight predicates in the source's order, and the separator it induces.
- `Collection` (collection.dfy): the collection pass stated on values.
  - `NodeEvents` is the sequence of collectToken calls that `exeIn` makes.
  - `Record` is the effect of one call on the row dictionary.
  - `RecordAll` folds `Record` over a sequence of calls.
  - Lemmas describe the dictionary and the walk.
- `Rendering` (rendering.dfy): the render pass stated on values.
  - the indent unit and its repetition;
  - the stable sort by start offset;
  - the spaced join of a row;
  - the order in which rows are enumerated.
- `Processor` (node_processor.dfy): the class `NodeProcessor`, whose fields are
  what the source mutates.
  - `depth` is the counter;
  - `rows` is `_row2elms`;
  - `edits` is `_edits`.

  Its methods update these fields exactly as the source does. Each method is
  proved equal to the value-level functions of the other modules.

`exeIn` is one function in the source. The model splits its body into four
methods, one per loop level:

- `ExeIn` is the loop over groups;
- `ExeGroup` is one group: raise the counter, loop over the elements, lower it;
- `ExeElem` is one element;
- `CollectComments` is the `forEach` over an element's comments.

The `forEach` over rows in `exe` is the method `ScanRows`.

`_edits` and `_row2elms` are never cleared in the source, so a second `exe` call
renders old rows again and returns earlier edits too. The model keeps both
fields across calls in the same way.

## Model

| member | source | states |
|---|---|---|
| Cst.HasComments | src/prcs/node-processor.ts:87-89 | true exactly when the element's leading-then-trailing comment list is non-empty |
| Spacing.AnyMatches | src/prcs/node-processor.ts:74 | `some` over the checker list: true exactly when some checker of the list holds for the pair |
| Spacing.NoSpaceTable | src/prcs/node-processor.ts:22-31 | the space is suppressed exactly when one of the eight predicates, in table order, holds |
| Spacing.NoSpaceAroundDot | src/prcs/node-processor.ts:23 | there is never a space after `Dot`, nor before `Semicolon`, `Dot` or `Comma` |
| Spacing.SpaceBeforeBrace | src/prcs/node-processor.ts:23-30 | before `LBrace` a space is kept exactly when the previous label is `If`, `For`, `While` or `Switch` |
| Spacing.OrdinaryNeighboursSpaced | src/prcs/node-processor.ts:23-30 | two neighbours whose labels the table never mentions are separated by exactly one space |
| Collection.OwnEventsCases | src/prcs/node-processor.ts:50-53 | a child node is walked with its group label as `tAnc` and the group's bump added to the depth; a leaf gives one call unless its image is empty; noIndent holds for a leaf that is the first or last element of its own child group, inside a node that sits in a `methodDeclarator` group |
| Collection.CommentsFirst | src/prcs/node-processor.ts:46-53 | an element's calls begin with its comments in order, and a leaf with a non-empty image comes right after them |
| Collection.RecordAllAppend | src/prcs/node-processor.ts:59-69 | recording two call sequences one after the other equals recording their concatenation |
| Collection.RecordAllRow | src/prcs/node-processor.ts:62-68 | after any calls, row k exists iff it existed or a call landed on it; its elements are the old ones followed by the calls on it in call order; its depth is the old one, or else the creation depth of the first call on it (first writer wins) |
| Collection.RecordAllSingleLine | src/prcs/node-processor.ts:60-61 | calls for multi-line tokens leave the dictionary unchanged: only single-line tokens matter |
| Collection.RecordAllOk | src/prcs/node-processor.ts:61-68 | calls with non-negative creation depths keep the invariant: every row is non-empty, every element of row k is a single-line token on line k + 1, and no depth is negative |
| Collection.NodeEventsDepth | src/prcs/node-processor.ts:42-66 | a walk entered at depth 0 never creates a row at a negative depth: a noIndent leaf is one level shallower, but its parent sits in a `methodDeclarator` group, which has already raised the counter |
| Collection.NodeEventsImages | src/prcs/node-processor.ts:50-53 | every collected token with an empty image is one of the comments inside the node: leaves with empty images are skipped |
| Rendering.IndentUnit | src/prcs/node-processor.ts:15 | `tabSize` spaces when spaces are inserted, otherwise a single tab |
| Rendering.LeadingUnitsOfIndent | src/prcs/node-processor.ts:80-82 | the indent reads back: d copies of the unit followed by text that does not start with the unit count as exactly d units |
| Rendering.SortByOffset | src/prcs/node-processor.ts:71 | the sorted row is ordered by start offset and is a permutation of the row |
| Rendering.SortStable | src/prcs/node-processor.ts:71 | the sort is stable: elements that share an offset keep their relative order |
| Rendering.SpacedStep | src/prcs/node-processor.ts:73-77 | appending the next element adds the separator from its predecessor (none for the first element) followed by its image |
| Rendering.SpacedSplit | src/prcs/node-processor.ts:73-77 | the joined row splits at any cut into the two joined halves with the separator of the two neighbours at the cut |
| Rendering.RenderRowIndent | src/prcs/node-processor.ts:72-77 | a rendered row begins with exactly `depth` indent units, and after them comes the spaced join of the sorted elements |
| Rendering.SortedKeys | src/prcs/node-processor.ts:35 | the row keys, strictly ascending, with exactly the dictionary's keys as members |
| Processor.RenderRows | src/prcs/node-processor.ts:35-36 | one edit per listed row, in the listed order, carrying that row's index and rendered text |
| Processor.OneEditPerRow | src/prcs/node-processor.ts:35-37 | exe's edits number exactly the recorded rows, go in strictly ascending row order, and name a row exactly when that row was recorded |
| Processor.NodeProcessor.constructor | src/prcs/node-processor.ts:12-15 | a fresh formatter has depth 0, no rows and no edits, and keeps the options |
| Processor.NodeProcessor.GenerateIndent | src/prcs/node-processor.ts:80-82 | the unit d times: d * tabSize spaces when spaces are inserted, otherwise d tabs |
| Processor.NodeProcessor.Exe | src/prcs/node-processor.ts:33-38 | the counter starts at 0. The dictionary becomes the old one with the walk's calls recorded, each row then sorted. The edits grow by the rendering of every row in ascending order, and the result is the whole edit list. The invariant is kept. |
| Processor.NodeProcessor.ScanRows | src/prcs/node-processor.ts:35-36 | scanning distinct rows in turn sorts exactly those rows and appends each one's edit, rendered from its unsorted contents, in the given order |
| Processor.NodeProcessor.ExeIn | src/prcs/node-processor.ts:39-58 | the counter is back at its entry value; the dictionary is the old one with the walk's calls recorded; edits are untouched |
| Processor.NodeProcessor.ExeGroup | src/prcs/node-processor.ts:40-57 | one group: its elements are recorded in order; a raised counter is lowered again |
| Processor.NodeProcessor.ExeElem | src/prcs/node-processor.ts:44-55 | one element, with the counter at the node's entry value plus the group's bump: its comments are recorded, then its own calls |
| Processor.NodeProcessor.CollectComments | src/prcs/node-processor.ts:46-49 | every comment is recorded, in order, at the current depth and without noIndent |
| Processor.NodeProcessor.CollectToken | src/prcs/node-processor.ts:59-69 | the dictionary goes through exactly one `Record` step: a multi-line token changes nothing; otherwise the row is created at the current depth (one less for noIndent) if absent, then the element is appended |
| Processor.NodeProcessor.ScanTextLine | src/prcs/node-processor.ts:70-79 | the row is stored back sorted. One edit is appended: the indent for the row's depth, then the images in offset order with the spacing table's separators. The invariant is kept. |

## Left out

- The editor API is not modelled: `TextDocument`, `TextLine`, `TextEdit.replace` and `FormattingOptions`.
  - An edit is a pair of a 0-based row and its new text.
  - The options are the `insertSpaces` and `tabSize` fields.
  - `document.lineAt` fails for a row outside the document, and that failure is not modelled.
- java-parser's `parse` is an external parser. The tree is an input datatype.
  - Its `children` record is a sequence of labelled groups in declared order.
  - `isNode`, which tests that a `location` field is defined, is the test for the `Node` constructor.
- `AsyncLocalStorage` only carries the counter through a synchronous call, so it becomes the `depth` field. There is no concurrency.
- `int2array` and `UType` from xjs-common are inlined as repetition and as the constructor test.
- JavaScript numbers are modelled as unbounded integers. The comparator `a - b` is modelled as an exact comparison of offsets.
- Exe: `Object.entries` lists array-index keys in ascending order, and the model enumerates every row key that way. A negative row, which would come from a token on line 0 or earlier, is listed after the others in insertion order in JavaScript. That order is not modelled, because java-parser's lines start at 1.
- ExeIn: the source promises that inside a group the counter equals the number of enclosing indent-prefix groups. The model states this level by level (the node's entry value plus the group's bump) rather than as a count along an explicit path from the root.
- Rendering.SortByOffset: `Array.prototype.sort` is modelled by a stable insertion sort. It has the same result as any stable sort by offset, but the engine's own algorithm and the number of comparisons are not modelled.
- src/index.ts registers the extension and returns a placeholder edit; it is not part of this model.
- src/test/print.ts is a debug script doing file I/O; it is not part of this model.
- src/func/u.ts is not part of this model.
  - It has a JSON dump helper.
  - It duplicates `isNode` and `hasComments`, which are modelled once in `Cst`.
  - It has an unused key-list comparison.
