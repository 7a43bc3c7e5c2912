# Styled Mermaid graph code, modelled in Dafny

The `MermaidGraph` component of mermaid-graph renders a Mermaid flowchart. Before
handing the source to Mermaid it runs `generateStyledGraphCode`, a pure
text-to-text transform. This project models that transform and proves what it
guarantees. The transform works in three stages:

1. **Edge indexing.** The source is split on `"\n"`. Each line is matched once
   against the labelled-edge pattern `([^\s]+)\s*-->\|([^\|]+)\|\s*([^\s]+)`.
   For each match:
   - a `((...))` decoration is stripped from both node tokens;
   - the key `from->label->to` is appended to `linkSequence`;
   - a from-node starting with `S` goes into the start set, one starting with `D`
     into the decision set, and a to-node starting with `E` into the ending set.
2. **Category styling.** The transform appends one `class X start|decision|ending;`
   per set member, in insertion order. Three fixed `classDef` lines follow.
3. **Path highlighting.** Each path is split on `" -> "` and walked in triples at
   token positions 0, 2, 4, and so on. Each triple highlights both of its nodes.
   When `findIndex` finds the triple's key, the triple also gets
   `linkStyle <first index>`. A closing `classDef highlightedNode` always ends the
   output.

Files:
- `wrappers.dfy` holds `Option`.
- `strings.dfy` holds JavaScript's `\s`, run scanning, `split` with a string
  separator, and the decimal rendering of an index.
- `edge_pattern.dfy` is the line matcher. It is an explicit leftmost,
  greedy-with-backtracking search for exactly this pattern, not a regex engine.
- `decoration.dfy` is `replace(/\(\(.+\)\)/, "")`.
- `link_index.dfy` is the single indexing pass and its per-concern
  specification.
- `styled_graph.dfy` holds the emitted `Directive`s, their byte-exact `Render`,
  and the transform itself.
- `scenarios.dfy` works through concrete inputs.

The output is modelled as the original source followed by a sequence of
`Directive` values. `Render` appends the exact template-literal text of each one.
`GenerateStyledGraphCode` is the imperative transform, and its contract ties it
to `Render(graphCode, Directives(graphCode, paths))`. Every property is then
stated over that directive sequence.

Matching semantics:
- **Edges.** The JavaScript engine picks the leftmost start position. At that
  start it picks the longest from-token for which the rest of the pattern
  matches, and the to-token runs to the next whitespace. A line holding two edges
  in one non-space run therefore yields the from-token up to the last arrow.
- **Decorations.** The leftmost `((` wins. Because `.+` is greedy, the match
  extends to the last `))` that is reachable without crossing a line terminator.
  At least one character must sit between the two pairs.

Facts about the code that the model relies on:
- `replace` removes the first `((.+))` match wherever it sits in the token, not
  only at its end;
- the label is `[^|]+`, so it may contain spaces;
- `edgeColor` and `nodeStrokeColor` are both `#3366FF`, so the model uses one
  constant, `HighlightColor`.

## Model

| member | source | states |
|---|---|---|
| Strings.SpaceClass | src/components/MermaidGraph.tsx:29 | `IsSpace`, the `\s` class of the edge pattern, contains every line terminator, the space and the tab, and none of the characters the two patterns spell out (`\|`, `-`, `>`, `(`, `)`) |
| Strings.Split | src/components/MermaidGraph.tsx:28 | `split` with a non-empty separator always yields at least one piece, even for the empty string |
| Strings.SplitWhole | src/components/MermaidGraph.tsx:74 | a split yields a single piece iff the separator does not occur in the string |
| Strings.JoinSplit | src/components/MermaidGraph.tsx:28 | joining the pieces of `split(sep)` with `sep` restores the input |
| Strings.SplitIsLeftmost | src/components/MermaidGraph.tsx:74 | each piece of a split stops at the first later occurrence of the separator, and the last piece contains none; with `JoinSplit` this determines the split |
| Strings.NatToString | src/components/MermaidGraph.tsx:94 | the `${linkIndex}` text is a string of decimal digits, without leading zeros, that denotes the index |
| EdgePattern.LocateEdge | src/components/MermaidGraph.tsx:29 | the line matches iff some placement of the pattern exists; the reported one is a placement, starts leftmost, has the longest from-token at that start, and its to-token ends at whitespace or at the end of the line |
| EdgePattern.MatchEdge | src/components/MermaidGraph.tsx:29-30 | the three capture groups are absent iff the line has no match; otherwise they are the from-token, label and to-token slices of the leftmost-longest placement `LocateEdge` reports, so they are non-empty, the tokens hold no whitespace and the label holds no `\|` |
| Decoration.FindDecoration | src/components/MermaidGraph.tsx:31-32 | the `((.+))` occurrence `replace` removes: absent iff there is none, otherwise the leftmost start with the longest extent there |
| Decoration.Strip | src/components/MermaidGraph.tsx:31-32 | a token without a decoration is unchanged; otherwise exactly the leftmost-longest `((...))` is cut out |
| Decoration.StripWithoutDoubleOpen | src/components/MermaidGraph.tsx:31-32 | a token with no `((` is left unchanged |
| Decoration.StripShortens | src/components/MermaidGraph.tsx:31-32 | when a decoration is present, at least five characters are removed |
| LinkIndex.KeyLayout | src/components/MermaidGraph.tsx:39 | a link key is the from-node, `->`, the label, `->` and the to-node, in that order and with nothing else, as the template literal builds it; the path walk builds its keys the same way at line 90 |
| LinkIndex.ParseEdgeMatches | src/components/MermaidGraph.tsx:29-39 | a line yields an edge iff the pattern matches; the node identifiers are the stripped tokens and the label is kept as matched |
| LinkIndex.FirstIndex | src/components/MermaidGraph.tsx:91 | `findIndex`: absent iff the value is not in the list; otherwise a position holding it with no earlier position holding it |
| LinkIndex.BuildIndex | src/components/MermaidGraph.tsx:28-43 | the single pass over the lines computes the per-concern index: the keys of all matched edges in line order, and each category set as the insertion-ordered set of its candidates |
| LinkIndex.LinkPositions | src/components/MermaidGraph.tsx:39-40 | `linkSequence` has one entry per matching line; the edge of a matching line sits at the position given by the number of matching lines before it, duplicates included |
| LinkIndex.LinkOrigin | src/components/MermaidGraph.tsx:39-40 | every position `k` of `linkSequence` holds the key of the line that has exactly `k` matching lines before it |
| LinkIndex.InsertAllIsOrderedSet | src/components/MermaidGraph.tsx:23-25 | successive `Set.add` calls give a duplicate-free sequence holding exactly the added values, ordered by first addition |
| LinkIndex.CategoryMembers | src/components/MermaidGraph.tsx:35-37 | a node is in a category iff some matched edge puts it there by first letter (from-node `S`/`D`, to-node `E`); members are unique and in first-appearance order |
| LinkIndex.CategoriesDisjoint | src/components/MermaidGraph.tsx:35-37 | no node belongs to two categories |
| StyledGraph.ChunkLayout | src/components/MermaidGraph.tsx:47-103 | every appended template literal starts with a line break; each one but the closing `classDef highlightedNode` ends in the indentation of the next line, and the closing one ends with a line break |
| StyledGraph.Render | src/components/MermaidGraph.tsx:20 | appending directives always keeps the text rendered so far as a prefix |
| StyledGraph.RenderOnlyAppends | src/components/MermaidGraph.tsx:47-103 | rendering any prefix of the directives yields a prefix of the final text |
| StyledGraph.PathSteps | src/components/MermaidGraph.tsx:78-81 | a path of `n` tokens has `(n - 1) / 2` steps (none when empty); step `j` is tokens `2j`, `2j+1`, `2j+2` |
| StyledGraph.StepAt | src/components/MermaidGraph.tsx:78 | step `j` exists iff token `2j + 2` does, which is the loop bound `i < steps.length - 2` |
| StyledGraph.StepDirectives | src/components/MermaidGraph.tsx:84-96 | a step always highlights both nodes; it adds a link style iff its key is in `linkSequence`, and then with the first index holding the key |
| StyledGraph.FindIndex | src/components/MermaidGraph.tsx:91-92 | the result is the position `FirstIndex` finds, or -1 when it finds none |
| StyledGraph.AppendClassAssigns | src/components/MermaidGraph.tsx:46-62 | the `forEach` over one category set appends one class assignment per member, in set order |
| StyledGraph.AppendCategories | src/components/MermaidGraph.tsx:46-69 | the category styler appends the start, decision and ending assignments and then the three class definitions |
| StyledGraph.AppendStep | src/components/MermaidGraph.tsx:79-96 | one loop iteration appends the node highlights and, when `findIndex` succeeds, the link style |
| StyledGraph.AppendPath | src/components/MermaidGraph.tsx:74-97 | the triple loop over one path appends exactly the directives of its steps, in step order |
| StyledGraph.AppendPaths | src/components/MermaidGraph.tsx:73-98 | the paths are processed in list order |
| StyledGraph.GenerateStyledGraphCode | src/components/MermaidGraph.tsx:19-105 | the result is the source followed by the rendered directives, so the source is a proper prefix |
| StyledGraph.StepsOutput | src/components/MermaidGraph.tsx:84-96 | the steps of a path append only node highlights and link styles whose index is the first position of their key |
| StyledGraph.PathsOutput | src/components/MermaidGraph.tsx:73-98 | likewise for all paths together |
| StyledGraph.DirectiveOrder | src/components/MermaidGraph.tsx:46-103 | emission order is start, decision and ending assignments, then the category definitions, then path directives, with exactly one highlight class definition, last; the category definitions appear exactly once, right after the last assignment |
| StyledGraph.CategoryDefsOnce | src/components/MermaidGraph.tsx:46-69 | the three category `classDef` lines are appended exactly once, directly after the last start, decision or ending assignment |
| StyledGraph.NoPathsNoHighlights | src/components/MermaidGraph.tsx:73-103 | with no paths there is no node highlight and no link style, only the category assignments and the two class-definition blocks |
| StyledGraph.LinkStylesInRange | src/components/MermaidGraph.tsx:91-95 | every appended `linkStyle k` has `k < \|linkSequence\|`, and `k` is the first position of its key |
| StyledGraph.CategoryAssignments | src/components/MermaidGraph.tsx:46-62 | a class assignment for a category appears once if the node is in that category's set, and otherwise not at all |
| StyledGraph.SourceCategoryAssignments | src/components/MermaidGraph.tsx:28-62 | a category assignment is appended, exactly once, iff a matched edge of the source puts the node in that category |
| StyledGraph.PathHighlights | src/components/MermaidGraph.tsx:78-87 | a path of `n` tokens highlights `(n - 1) / 2` node pairs, the `j`-th being tokens `2j` and `2j+2`, whether or not the edge was indexed |
| StyledGraph.StepsLinkStyles | src/components/MermaidGraph.tsx:89-96 | `linkStyle k` is appended iff some step's key has first index `k` |
| StyledGraph.TokensLinkStyles | src/components/MermaidGraph.tsx:74-96 | `linkStyle k` is appended iff `k` is a position of `linkSequence`, no earlier position holds the same key, and that key is some triple of the tokens |
| StyledGraph.PathLinkStyles | src/components/MermaidGraph.tsx:74-96 | the same for a path string, through its `split(" -> ")` |
| Scenarios.TwoEdgesOneLine | src/components/MermaidGraph.tsx:29 | `A-->\|x\|B-->\|y\|C` matches once as `A-->\|x\|B`, `y`, `C` |
| Scenarios.EndTokenStripped | src/components/MermaidGraph.tsx:32 | `E1((end))` becomes `E1` |
| Scenarios.SampleLineParsed | src/components/MermaidGraph.tsx:29-32 | `S1 -->\|go\| E1((end))` yields the edge `S1`, `go`, `E1` |
| Scenarios.SampleIndex | src/components/MermaidGraph.tsx:28-43 | that one-line source indexes the key `S1->go->E1`, the start node `S1` and the ending node `E1` |
| Scenarios.SamplePathTokens | src/components/MermaidGraph.tsx:74 | `S1 -> go -> E1` splits into `S1`, `go`, `E1` |
| Scenarios.SampleDirectives | src/components/MermaidGraph.tsx:19-105 | for that source and path the appended directives are `class S1 start`, `class E1 ending`, the category definitions, both highlights, `linkStyle 0`, and the closing definition |

## Left out

- React state and effects are not modelled: `useState`, both `useEffect` blocks and the `isClient` guard. They are UI lifecycle, not transform logic.
- The Mermaid library calls are not modelled: `mermaid.initialize`, `mermaid.contentLoaded` and the async `renderMermaid`. They are a foreign library and asynchronous I/O.
- The DOM click-listener wiring that feeds `onNodeClick` and `onEdgeClick` is not modelled. It is browser event plumbing.
- The JSX output and inline styles are not modelled.
- The default `paths = []` is left to the caller: the model always takes an explicit path list.
- `currentLinkIndex` is not modelled. It is incremented but never read, and always equals the length of `linkSequence`.
- Strings are modelled as sequences of Unicode scalar values, whereas JavaScript strings are UTF-16 code units. A character outside the Basic Multilingual Plane counts as one character here but as two code units in JavaScript. Neither `\s`, `.` nor `[^\|]` treats surrogates specially, so matches and keys are unaffected.
- General regular-expression semantics are not modelled. Only the two fixed patterns are implemented, each as an explicit search whose contract characterises the match JavaScript returns.
- Mermaid numbers every edge of the diagram for `linkStyle`, but this transform counts only the lines that match the labelled-edge pattern. Whether the two numberings agree depends on the diagram and on the renderer, and the renderer is outside this model.
