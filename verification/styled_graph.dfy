/**
 The styled diagram text: the original source followed by the directives the
 category styler and the path highlighter append. Each `Directive` is one
 template literal the transform appends, so `Render` reproduces the text byte for
 byte while the properties are stated over the directive sequence.
 */
module StyledGraph {
  import opened Wrappers
  import opened Strings
  import opened LinkIndex

  /** The separator between the tokens of a highlight path. */
  const PathSeparator: string := " -> "

  /** The stroke colour of highlighted edges and highlighted nodes. */
  const HighlightColor: string := "#3366FF"

  datatype Directive =
    | ClassAssign(node: string, category: Category)  // `class X start;` (or decision, ending)
    | CategoryDefs                                   // the three fixed `classDef` lines of the categories
    | HighlightNodes(from: string, to: string)       // `class F highlightedNode;` and `class T highlightedNode;` of one step
    | LinkStyle(index: nat)                          // `linkStyle K stroke:#3366FF,stroke-width:5px;`
    | HighlightDef                                   // the closing `classDef highlightedNode ...`

  function CategoryName(c: Category): string {
    match c
    case Start => "start"
    case Decision => "decision"
    case Ending => "ending"
  }

  /** The exact text one directive appends, indentation and line breaks included. */
  function Chunk(d: Directive): string {
    match d
    case ClassAssign(node, c) =>
      "\n        class " + node + " " + CategoryName(c) + ";\n      "
    case CategoryDefs =>
      "\n      classDef start" + " fill:#a8e6cf,stroke:#2b7a4b,stroke-width:2px;"
      + "\n      classDef decision fill:#d0e8f2,stroke:#4682b4,stroke-width:2px;"
      + "\n      classDef ending fill:#f9a,stroke:#333,stroke-width:2px;\n    "
    case HighlightNodes(from, to) =>
      "\n      class " + from + " highlightedNode;\n      class " + to + " highlightedNode;\n    "
    case LinkStyle(k) =>
      "\n        linkStyle " + NatToString(k) + " stroke:" + HighlightColor + ",stroke-width:5px;\n      "
    case HighlightDef =>
      "\n  classDef highlightedNode stroke:" + HighlightColor + ",stroke-width:5px;\n"
  }

  /**
   Every chunk starts on a new line. Every chunk but the last one ends in the
   indentation of the line that follows. The highlight class definition, which
   closes the text, ends with a line break.
   */
  lemma ChunkLayout(d: Directive)
    ensures |Chunk(d)| > 1 && Chunk(d)[0] == '\n'
    ensures !d.HighlightDef? ==> Chunk(d)[|Chunk(d)| - 1] == ' '
    ensures d.HighlightDef? ==> Chunk(d)[|Chunk(d)| - 1] == '\n'
  {
    match d
    case ClassAssign(node, c) => ClassAssignLayout(node, c);
    case CategoryDefs => CategoryDefsLayout();
    case HighlightNodes(from, to) => HighlightNodesLayout(from, to);
    case LinkStyle(k) => LinkStyleLayout(k);
    case HighlightDef => HighlightDefLayout();
  }

  /** `s` starts with a line break and ends with `last`. */
  predicate Framing(s: string, last: char) {
    |s| > 1 && s[0] == '\n' && s[|s| - 1] == last
  }

  lemma ClassAssignLayout(node: string, c: Category)
    ensures Framing(Chunk(ClassAssign(node, c)), ' ')
  {
    var tail := ";\n      ";
    assert Chunk(ClassAssign(node, c)) == "\n        class " + ((node + " " + CategoryName(c)) + tail);
    Framed("\n        class ", node + " " + CategoryName(c), tail);
  }

  lemma CategoryDefsLayout()
    ensures Framing(Chunk(CategoryDefs), ' ')
  {
    var head := "\n      classDef start";
    var mid := " fill:#a8e6cf,stroke:#2b7a4b,stroke-width:2px;"
      + "\n      classDef decision fill:#d0e8f2,stroke:#4682b4,stroke-width:2px;";
    var tail := "\n      classDef ending fill:#f9a,stroke:#333,stroke-width:2px;\n    ";
    assert Chunk(CategoryDefs) == head + (mid + tail);
    Framed(head, mid, tail);
  }

  lemma HighlightNodesLayout(from: string, to: string)
    ensures Framing(Chunk(HighlightNodes(from, to)), ' ')
  {
    var tail := " highlightedNode;\n    ";
    assert Chunk(HighlightNodes(from, to)) == "\n      class " + ((from + " highlightedNode;\n      class " + to) + tail);
    Framed("\n      class ", from + " highlightedNode;\n      class " + to, tail);
  }

  lemma LinkStyleLayout(k: nat)
    ensures Framing(Chunk(LinkStyle(k)), ' ')
  {
    var tail := ",stroke-width:5px;\n      ";
    assert Chunk(LinkStyle(k)) == "\n        linkStyle " + ((NatToString(k) + " stroke:" + HighlightColor) + tail);
    Framed("\n        linkStyle ", NatToString(k) + " stroke:" + HighlightColor, tail);
  }

  lemma HighlightDefLayout()
    ensures Framing(Chunk(HighlightDef), '\n')
  {
    var tail := ",stroke-width:5px;\n";
    assert Chunk(HighlightDef) == "\n  classDef highlightedNode stroke:" + (HighlightColor + tail);
    Framed("\n  classDef highlightedNode stroke:", HighlightColor, tail);
  }

  /** The first and last characters of `head + mid + tail` are those of `head` and `tail`. */
  lemma Framed(head: string, mid: string, tail: string)
    requires |head| > 0 && |tail| > 0
    ensures var s := head + (mid + tail);
      |s| > 1 && s[0] == head[0] && s[|s| - 1] == tail[|tail| - 1]
  {
  }

  /** `text` with the chunks of `ds` appended in order; the text is always kept as a prefix. */
  function Render(text: string, ds: seq<Directive>): (r: string)
    ensures |text| <= |r| && r[..|text|] == text
    decreases |ds|
  {
    if |ds| == 0 then text
    else
      var init := Render(text, ds[..|ds| - 1]);
      var r := init + Chunk(ds[|ds| - 1]);
      assert r[..|init|] == init;
      assert r[..|text|] == init[..|text|];
      r
  }

  /** Rendering a concatenation renders the second part onto the rendering of the first. */
  lemma {:induction false} RenderAppend(text: string, a: seq<Directive>, b: seq<Directive>)
    ensures Render(text, a + b) == Render(Render(text, a), b)
    decreases |b|
  {
    if |b| == 0 {
      assert a + b == a;
    } else {
      var b' := b[..|b| - 1];
      var d := b[|b| - 1];
      RenderAppend(text, a, b');
      SplitLast(a, b);
      RenderSnoc(text, a + b', d);
      RenderSnoc(Render(text, a), b', d);
    }
  }

  lemma SplitLast<T>(a: seq<T>, b: seq<T>)
    requires |b| > 0
    ensures b == b[..|b| - 1] + [b[|b| - 1]]
    ensures a + b == (a + b[..|b| - 1]) + [b[|b| - 1]]
  {
  }

  lemma RenderSnoc(text: string, ds: seq<Directive>, d: Directive)
    ensures Render(text, ds + [d]) == Render(text, ds) + Chunk(d)
  {
    assert (ds + [d])[..|ds|] == ds;
  }

  /** Every step only appends: rendering a prefix of the directives gives a prefix of the text. */
  lemma RenderOnlyAppends(text: string, ds: seq<Directive>, i: nat)
    requires i <= |ds|
    ensures var whole := Render(text, ds);
      var part := Render(text, ds[..i]);
      |part| <= |whole| && whole[..|part|] == part
  {
    assert ds == ds[..i] + ds[i..];
    RenderAppend(text, ds[..i], ds[i..]);
  }

  /** The class assignments for the members of one category, in set order. */
  function CategoryAssigns(nodes: seq<string>, c: Category): (ds: seq<Directive>)
    ensures |ds| == |nodes|
    ensures forall i :: 0 <= i < |nodes| ==> ds[i] == ClassAssign(nodes[i], c)
  {
    seq(|nodes|, i requires 0 <= i < |nodes| => ClassAssign(nodes[i], c))
  }

  /** The category styler: start, decision and ending assignments, then the three class definitions. */
  function CategoryDirectives(idx: Index): seq<Directive> {
    CategoryAssigns(idx.starts, Start) + CategoryAssigns(idx.decisions, Decision)
    + CategoryAssigns(idx.endings, Ending) + [CategoryDefs]
  }

  /**
   The steps of a path split into `tokens`: overlapping triples at 0, 2, 4, ...
   as long as three tokens remain; a trailing token that completes no triple is
   ignored.
   */
  function PathSteps(tokens: seq<string>): (steps: seq<Edge>)
    ensures |steps| == if |tokens| == 0 then 0 else (|tokens| - 1) / 2
    ensures forall j :: 0 <= j < |steps| ==>
      2 * j + 2 < |tokens| && steps[j] == Edge(tokens[2 * j], tokens[2 * j + 1], tokens[2 * j + 2])
    decreases |tokens|
  {
    if |tokens| < 3 then []
    else
      var rest := PathSteps(tokens[2..]);
      var steps := [Edge(tokens[0], tokens[1], tokens[2])] + rest;
      assert forall j :: 1 <= j < |steps| ==> steps[j] == rest[j - 1];
      steps
  }

  /** Step `j` of a path exists exactly when token `i + 2` does, `i = 2 * j`, and it is the triple starting at token `i`. */
  lemma StepAt(tokens: seq<string>, j: nat, i: nat)
    requires i == 2 * j
    ensures j < |PathSteps(tokens)| <==> i + 2 < |tokens|
    ensures i + 2 < |tokens| ==> PathSteps(tokens)[j] == Edge(tokens[i], tokens[i + 1], tokens[i + 2])
  {
    var len := |tokens|;
    if len > 0 {
      var half := (len - 1) / 2;
      assert 2 * half <= len - 1 < 2 * half + 2;
    }
  }

  /**
   One step: both nodes are highlighted unconditionally; the edge gets a
   `linkStyle` exactly when its key was indexed, and then with the FIRST index
   holding that key.
   */
  function StepDirectives(links: seq<string>, step: Edge): (ds: seq<Directive>)
    ensures 1 <= |ds| <= 2 && ds[0] == HighlightNodes(step.from, step.to)
    ensures |ds| == 2 <==> Key(step) in links
    ensures |ds| == 2 ==> ds[1].LinkStyle? && ds[1].index < |links| && links[ds[1].index] == Key(step)
    ensures |ds| == 2 ==> forall j :: 0 <= j < ds[1].index ==> links[j] != Key(step)
  {
    [HighlightNodes(step.from, step.to)]
    + match FirstIndex(links, Key(step))
      case Some(k) => [LinkStyle(k)]
      case None => []
  }

  function StepsDirectives(links: seq<string>, steps: seq<Edge>): seq<Directive>
    decreases |steps|
  {
    if |steps| == 0 then []
    else StepsDirectives(links, steps[..|steps| - 1]) + StepDirectives(links, steps[|steps| - 1])
  }

  lemma StepsSnoc(links: seq<string>, steps: seq<Edge>, n: nat)
    requires n < |steps|
    ensures StepsDirectives(links, steps[..n + 1]) == StepsDirectives(links, steps[..n]) + StepDirectives(links, steps[n])
  {
    assert steps[..n + 1][..n] == steps[..n];
  }

  lemma RenderStepsSnoc(text: string, links: seq<string>, steps: seq<Edge>, n: nat)
    requires n < |steps|
    ensures Render(text, StepsDirectives(links, steps[..n + 1]))
      == Render(Render(text, StepsDirectives(links, steps[..n])), StepDirectives(links, steps[n]))
  {
    StepsSnoc(links, steps, n);
    RenderAppend(text, StepsDirectives(links, steps[..n]), StepDirectives(links, steps[n]));
  }

  /** The directives of one highlight path, in step order. */
  function PathDirectives(links: seq<string>, path: string): seq<Directive> {
    StepsDirectives(links, PathSteps(Split(path, PathSeparator)))
  }

  /** The path highlighter over all paths, in path order. */
  function PathsDirectives(links: seq<string>, paths: seq<string>): seq<Directive>
    decreases |paths|
  {
    if |paths| == 0 then []
    else PathsDirectives(links, paths[..|paths| - 1]) + PathDirectives(links, paths[|paths| - 1])
  }

  /** Everything appended for a given index, in emission order. */
  function IndexDirectives(idx: Index, paths: seq<string>): seq<Directive> {
    CategoryDirectives(idx) + PathsDirectives(idx.links, paths) + [HighlightDef]
  }

  /** Everything appended to the source, in emission order. */
  function Directives(graphCode: string, paths: seq<string>): seq<Directive> {
    IndexDirectives(IndexSource(graphCode), paths)
  }

  /** `linkSequence.findIndex((link) => link === linkKey)`: the first position holding the key, or -1. */
  method FindIndex(links: seq<string>, key: string) returns (linkIndex: int)
    ensures linkIndex == match FirstIndex(links, key) case Some(k) => k case None => -1
  {
    var i := 0;
    while i < |links|
      invariant i <= |links|
      invariant forall j :: 0 <= j < i ==> links[j] != key
    {
      if links[i] == key {
        return i;
      }
      i := i + 1;
    }
    return -1;
  }

  /** `nodes.forEach(node => styledGraphCode += ...)` for one category set. */
  method AppendClassAssigns(text: string, nodes: seq<string>, c: Category) returns (out: string)
    ensures out == Render(text, CategoryAssigns(nodes, c))
  {
    out := text;
    var i := 0;
    ghost var done: seq<Directive> := [];
    while i < |nodes|
      invariant i <= |nodes|
      invariant done == CategoryAssigns(nodes[..i], c)
      invariant out == Render(text, done)
    {
      var d := ClassAssign(nodes[i], c);
      RenderSnoc(text, done, d);
      AssignsSnoc(nodes, i, c);
      out := out + Chunk(d);
      done := done + [d];
      i := i + 1;
    }
    assert nodes[..i] == nodes;
  }

  lemma AssignsSnoc(nodes: seq<string>, i: nat, c: Category)
    requires i < |nodes|
    ensures CategoryAssigns(nodes[..i + 1], c) == CategoryAssigns(nodes[..i], c) + [ClassAssign(nodes[i], c)]
  {
  }

  /** The text one step appends onto `text`: the node highlights, then the link style when the key was found. */
  lemma RenderStep(text: string, links: seq<string>, step: Edge)
    ensures FirstIndex(links, Key(step)).None? ==>
      Render(text, StepDirectives(links, step)) == text + Chunk(HighlightNodes(step.from, step.to))
    ensures FirstIndex(links, Key(step)).Some? ==>
      Render(text, StepDirectives(links, step))
        == text + Chunk(HighlightNodes(step.from, step.to)) + Chunk(LinkStyle(FirstIndex(links, Key(step)).value))
  {
    var highlight := HighlightNodes(step.from, step.to);
    RenderSnoc(text, [], highlight);
    assert [] + [highlight] == [highlight];
    if FirstIndex(links, Key(step)).Some? {
      RenderSnoc(text, [highlight], LinkStyle(FirstIndex(links, Key(step)).value));
    }
  }

  /** One step of the path loop: highlight both nodes, then style the edge when `findIndex` finds its key. */
  method AppendStep(text: string, links: seq<string>, step: Edge) returns (out: string)
    ensures out == Render(text, StepDirectives(links, step))
  {
    RenderStep(text, links, step);
    out := text + Chunk(HighlightNodes(step.from, step.to));
    var linkIndex := FindIndex(links, step.from + "->" + step.linkLabel + "->" + step.to);
    if linkIndex != -1 {
      out := out + Chunk(LinkStyle(linkIndex));
    }
  }

  /**
   One path: `for (let i = 0; i < steps.length - 2; i += 2)` over the tokens of
   `path.split(" -> ")`, one step per triple.
   */
  method AppendPath(text: string, links: seq<string>, path: string) returns (out: string)
    ensures out == Render(text, PathDirectives(links, path))
  {
    out := text;
    var steps := Split(path, PathSeparator);
    ghost var walk := PathSteps(steps);
    ghost var n := 0;
    var i := 0;
    while i < |steps| - 2
      invariant i == 2 * n && n <= |walk|
      invariant out == Render(text, StepsDirectives(links, walk[..n]))
    {
      StepAt(steps, n, i);
      var step := Edge(steps[i], steps[i + 1], steps[i + 2]);
      assert step == walk[n];
      ghost var prev := out;
      out := AppendStep(out, links, step);
      assert out == Render(prev, StepDirectives(links, walk[n]));
      RenderStepsSnoc(text, links, walk, n);
      i := i + 2;
      n := n + 1;
    }
    StepAt(steps, n, i);
    assert walk[..n] == walk;
  }

  /** The category styler: each category's `forEach`, then the three class definitions. */
  method AppendCategories(text: string, idx: Index) returns (out: string)
    ensures out == Render(text, CategoryDirectives(idx))
  {
    var starts := CategoryAssigns(idx.starts, Start);
    var decisions := CategoryAssigns(idx.decisions, Decision);
    var endings := CategoryAssigns(idx.endings, Ending);
    out := AppendClassAssigns(text, idx.starts, Start);
    out := AppendClassAssigns(out, idx.decisions, Decision);
    out := AppendClassAssigns(out, idx.endings, Ending);
    RenderAppend(text, starts, decisions);
    RenderAppend(text, starts + decisions, endings);
    RenderSnoc(text, starts + decisions + endings, CategoryDefs);
    out := out + Chunk(CategoryDefs);
  }

  /** `paths.forEach(path => ...)`: the path highlighter over every path in order. */
  method AppendPaths(text: string, links: seq<string>, paths: seq<string>) returns (out: string)
    ensures out == Render(text, PathsDirectives(links, paths))
  {
    out := text;
    var p := 0;
    while p < |paths|
      invariant p <= |paths|
      invariant out == Render(text, PathsDirectives(links, paths[..p]))
    {
      ghost var done := PathsDirectives(links, paths[..p]);
      assert paths[..p + 1][..p] == paths[..p];
      out := AppendPath(out, links, paths[p]);
      RenderAppend(text, done, PathDirectives(links, paths[p]));
      p := p + 1;
    }
    assert paths[..p] == paths;
  }

  /**
   The transform `generateStyledGraphCode`: index the lines, append the category
   directives, append each path's directives, close with the highlight class
   definition. The result is the source followed by the rendered directives.
   */
  method GenerateStyledGraphCode(graphCode: string, paths: seq<string>) returns (styledGraphCode: string)
    ensures styledGraphCode == Render(graphCode, Directives(graphCode, paths))
    ensures |graphCode| < |styledGraphCode| && styledGraphCode[..|graphCode|] == graphCode
  {
    var idx := BuildIndex(Split(graphCode, "\n"));
    ghost var categories := CategoryDirectives(idx);
    ghost var highlights := PathsDirectives(idx.links, paths);
    styledGraphCode := AppendCategories(graphCode, idx);
    styledGraphCode := AppendPaths(styledGraphCode, idx.links, paths);
    RenderAppend(graphCode, categories, highlights);
    RenderSnoc(graphCode, categories + highlights, HighlightDef);
    styledGraphCode := styledGraphCode + Chunk(HighlightDef);
  }

  // ---------------------------------------------------------------------------
  // Properties of the appended directives
  // ---------------------------------------------------------------------------

  /**
   What the path highlighter may append: node highlights, and link styles whose
   index is the first position of its key in `links`.
   */
  predicate IsPathOutput(links: seq<string>, d: Directive) {
    || d.HighlightNodes?
    || (d.LinkStyle? && d.index < |links| && FirstIndex(links, links[d.index]) == Some(d.index))
  }

  lemma {:induction false} StepsOutput(links: seq<string>, steps: seq<Edge>)
    ensures forall d :: d in StepsDirectives(links, steps) ==> IsPathOutput(links, d)
    decreases |steps|
  {
    if |steps| > 0 {
      var init := steps[..|steps| - 1];
      StepsOutput(links, init);
      var ds := StepDirectives(links, steps[|steps| - 1]);
      if |ds| == 2 {
        var k := ds[1].index;
        var found := FirstIndex(links, links[k]);
        assert links[k] in links;
        assert found.Some? && found.value == k;
      }
      assert forall d :: d in ds ==> d == ds[0] || d == ds[|ds| - 1];
    }
  }

  /** Everything every path appends is path output; in particular no category assignment and no class definition. */
  lemma {:induction false} PathsOutput(links: seq<string>, paths: seq<string>)
    ensures forall d :: d in PathsDirectives(links, paths) ==> IsPathOutput(links, d)
    decreases |paths|
  {
    if |paths| > 0 {
      PathsOutput(links, paths[..|paths| - 1]);
      StepsOutput(links, PathSteps(Split(paths[|paths| - 1], PathSeparator)));
    }
  }

  /**
   The emission phase of a directive: start, decision and ending assignments,
   the category class definitions, the path highlights, the closing definition.
   */
  function Phase(d: Directive): nat {
    match d
    case ClassAssign(_, c) => (match c case Start => 0 case Decision => 1 case Ending => 2)
    case CategoryDefs => 3
    case HighlightNodes(_, _) => 4
    case LinkStyle(_) => 4
    case HighlightDef => 5
  }

  predicate InPhaseOrder(ds: seq<Directive>) {
    forall i, j :: 0 <= i < j < |ds| ==> Phase(ds[i]) <= Phase(ds[j])
  }

  lemma PhaseOrderAppend(a: seq<Directive>, b: seq<Directive>, p: nat)
    requires InPhaseOrder(a) && InPhaseOrder(b)
    requires forall d :: d in a ==> Phase(d) <= p
    requires forall d :: d in b ==> p <= Phase(d)
    ensures InPhaseOrder(a + b)
  {
    forall i, j | 0 <= i < j < |a + b|
      ensures Phase((a + b)[i]) <= Phase((a + b)[j])
    {
      if j < |a| {
        assert (a + b)[i] == a[i] && (a + b)[j] == a[j];
      } else if i >= |a| {
        assert (a + b)[i] == b[i - |a|] && (a + b)[j] == b[j - |a|];
      } else {
        assert (a + b)[i] == a[i] && a[i] in a;
        assert (a + b)[j] == b[j - |a|] && b[j - |a|] in b;
      }
    }
  }

  lemma SinglePhase(ds: seq<Directive>, p: nat)
    requires forall d :: d in ds ==> Phase(d) == p
    ensures InPhaseOrder(ds)
  {
    forall i, j | 0 <= i < j < |ds|
      ensures Phase(ds[i]) <= Phase(ds[j])
    {
      assert ds[i] in ds && ds[j] in ds;
    }
  }

  lemma AssignsPhase(nodes: seq<string>, c: Category)
    ensures forall d :: d in CategoryAssigns(nodes, c) ==> d.ClassAssign? && d.category == c
    ensures forall d :: d in CategoryAssigns(nodes, c) ==> Phase(d) == Phase(ClassAssign("", c))
  {
  }

  /**
   The emission order is fixed: all start assignments, then all decision
   assignments, then all ending assignments, then the category class
   definitions, then the path highlights, and the highlight class definition
   last, exactly once.
   */
  lemma DirectiveOrder(idx: Index, paths: seq<string>)
    ensures var ds := IndexDirectives(idx, paths);
      && InPhaseOrder(ds)
      && |ds| > 0 && ds[|ds| - 1] == HighlightDef
      && (forall i :: 0 <= i < |ds| - 1 ==> ds[i] != HighlightDef)
      && multiset(ds)[CategoryDefs] == 1
      && ds[|idx.starts| + |idx.decisions| + |idx.endings|] == CategoryDefs
  {
    var a0 := CategoryAssigns(idx.starts, Start);
    var a1 := CategoryAssigns(idx.decisions, Decision);
    var a2 := CategoryAssigns(idx.endings, Ending);
    var hl := PathsDirectives(idx.links, paths);
    AssignsPhase(idx.starts, Start);
    AssignsPhase(idx.decisions, Decision);
    AssignsPhase(idx.endings, Ending);
    PathsOutput(idx.links, paths);
    SinglePhase(a0, 0);
    SinglePhase(a1, 1);
    SinglePhase(a2, 2);
    SinglePhase([CategoryDefs], 3);
    SinglePhase(hl, 4);
    SinglePhase([HighlightDef], 5);
    PhaseOrderAppend(a0, a1, 0);
    PhaseOrderAppend(a0 + a1, a2, 1);
    PhaseOrderAppend(a0 + a1 + a2, [CategoryDefs], 2);
    PhaseOrderAppend(a0 + a1 + a2 + [CategoryDefs], hl, 3);
    PhaseOrderAppend(a0 + a1 + a2 + [CategoryDefs] + hl, [HighlightDef], 4);
    var ds := IndexDirectives(idx, paths);
    assert ds == a0 + a1 + a2 + [CategoryDefs] + hl + [HighlightDef];
    forall i | 0 <= i < |ds| - 1
      ensures ds[i] != HighlightDef
    {
      assert ds[i] in a0 + a1 + a2 + [CategoryDefs] + hl;
    }
    CategoryDefsOnce(idx, paths);
  }

  /** The three category class definitions are appended once, right after the last category assignment. */
  lemma CategoryDefsOnce(idx: Index, paths: seq<string>)
    ensures var ds := IndexDirectives(idx, paths);
      && |idx.starts| + |idx.decisions| + |idx.endings| < |ds|
      && multiset(ds)[CategoryDefs] == 1
      && ds[|idx.starts| + |idx.decisions| + |idx.endings|] == CategoryDefs
  {
    AssignsWithoutDefs(idx);
    PathsWithoutDefs(idx.links, paths);
    OnceBetween(CategoryAssigns(idx.starts, Start) + CategoryAssigns(idx.decisions, Decision)
      + CategoryAssigns(idx.endings, Ending), CategoryDefs, PathsDirectives(idx.links, paths), HighlightDef);
  }

  lemma AssignsWithoutDefs(idx: Index)
    ensures CategoryDefs !in CategoryAssigns(idx.starts, Start) + CategoryAssigns(idx.decisions, Decision)
      + CategoryAssigns(idx.endings, Ending)
  {
    AssignsPhase(idx.starts, Start);
    AssignsPhase(idx.decisions, Decision);
    AssignsPhase(idx.endings, Ending);
  }

  lemma PathsWithoutDefs(links: seq<string>, paths: seq<string>)
    ensures CategoryDefs !in PathsDirectives(links, paths)
  {
    PathsOutput(links, paths);
  }

  /** A value that occurs nowhere else occurs once in `a + [x] + b + [y]`, at position `|a|`. */
  lemma OnceBetween<T>(a: seq<T>, x: T, b: seq<T>, y: T)
    requires x !in a && x !in b && x != y
    ensures multiset(a + [x] + b + [y])[x] == 1 && (a + [x] + b + [y])[|a|] == x
  {
    assert multiset(a + [x] + b + [y]) == multiset(a) + multiset{x} + multiset(b) + multiset{y};
  }

  /** Without paths nothing is highlighted: no node highlight and no link style, only the category styling. */
  lemma NoPathsNoHighlights(idx: Index)
    ensures var ds := IndexDirectives(idx, []);
      && (forall d :: d in ds ==> !d.HighlightNodes? && !d.LinkStyle?)
      && |ds| == |idx.starts| + |idx.decisions| + |idx.endings| + 2
  {
    AssignsPhase(idx.starts, Start);
    AssignsPhase(idx.decisions, Decision);
    AssignsPhase(idx.endings, Ending);
  }

  /** Every link style the transform appends addresses a link that exists, and the first link with that key. */
  lemma LinkStylesInRange(idx: Index, paths: seq<string>)
    ensures forall d :: d in IndexDirectives(idx, paths) && d.LinkStyle? ==>
      d.index < |idx.links| && FirstIndex(idx.links, idx.links[d.index]) == Some(d.index)
  {
    AssignsPhase(idx.starts, Start);
    AssignsPhase(idx.decisions, Decision);
    AssignsPhase(idx.endings, Ending);
    PathsOutput(idx.links, paths);
  }

  lemma {:induction false} AssignsCount(nodes: seq<string>, c: Category, x: string)
    requires NoDuplicates(nodes)
    ensures multiset(CategoryAssigns(nodes, c))[ClassAssign(x, c)] == if x in nodes then 1 else 0
    decreases |nodes|
  {
    if |nodes| > 0 {
      var init := nodes[..|nodes| - 1];
      var last := nodes[|nodes| - 1];
      AssignsCount(init, c, x);
      assert nodes == init + [last];
      assert CategoryAssigns(nodes, c) == CategoryAssigns(init, c) + [ClassAssign(last, c)];
      if last == x {
        assert x !in init;
      }
    } else {
      assert CategoryAssigns(nodes, c) == [];
    }
  }

  /**
   For a category whose member list has no duplicates, the assignment of a node
   to that category is appended once when the node is a member and never
   otherwise, whatever the paths.
   */
  lemma CategoryAssignments(idx: Index, paths: seq<string>, x: string, c: Category)
    requires NoDuplicates(idx.Members(c))
    ensures multiset(IndexDirectives(idx, paths))[ClassAssign(x, c)] == if x in idx.Members(c) then 1 else 0
  {
    AssignsPhase(idx.starts, Start);
    AssignsPhase(idx.decisions, Decision);
    AssignsPhase(idx.endings, Ending);
    PathsOutput(idx.links, paths);
    var target := ClassAssign(x, c);
    var a0 := CategoryAssigns(idx.starts, Start);
    var a1 := CategoryAssigns(idx.decisions, Decision);
    var a2 := CategoryAssigns(idx.endings, Ending);
    var hl := PathsDirectives(idx.links, paths);
    assert IndexDirectives(idx, paths) == a0 + a1 + a2 + [CategoryDefs] + hl + [HighlightDef];
    assert target !in hl;
    AssignsCount(idx.Members(c), c, x);
    match c
    case Start =>
      assert target !in a1 && target !in a2;
    case Decision =>
      assert target !in a0 && target !in a2;
    case Ending =>
      assert target !in a0 && target !in a1;
  }

  /**
   Each category assignment is appended exactly when a matched edge of the
   source puts the node in that category (a from-node starting with `S` or `D`,
   a to-node starting with `E`), and then exactly once.
   */
  lemma SourceCategoryAssignments(graphCode: string, paths: seq<string>, x: string, c: Category)
    ensures var lines := Split(graphCode, "\n");
      var count := multiset(Directives(graphCode, paths))[ClassAssign(x, c)];
      && (count > 0 <==> exists e :: e in EdgesOf(lines) && InCategory(e, c) && NodeOf(e, c) == x)
      && count <= 1
  {
    CategoryMembers(Split(graphCode, "\n"), c);
    CategoryAssignments(IndexSource(graphCode), paths, x, c);
  }

  /** The node pairs a list of directives highlights, in order. */
  function Highlighted(ds: seq<Directive>): seq<(string, string)>
    decreases |ds|
  {
    if |ds| == 0 then []
    else
      var d := ds[|ds| - 1];
      Highlighted(ds[..|ds| - 1]) + (if d.HighlightNodes? then [(d.from, d.to)] else [])
  }

  lemma {:induction false} HighlightedAppend(a: seq<Directive>, b: seq<Directive>)
    ensures Highlighted(a + b) == Highlighted(a) + Highlighted(b)
    decreases |b|
  {
    if |b| == 0 {
      assert a + b == a;
    } else {
      HighlightedAppend(a, b[..|b| - 1]);
      SplitLast(a, b);
    }
  }

  lemma StepHighlight(links: seq<string>, step: Edge)
    ensures Highlighted(StepDirectives(links, step)) == [(step.from, step.to)]
  {
    var ds := StepDirectives(links, step);
    var head := ds[..1];
    assert head[..0] == [];
    assert Highlighted(head) == [(step.from, step.to)];
    if |ds| == 2 {
      assert ds[..|ds| - 1] == head;
    } else {
      assert ds == head;
    }
  }

  lemma {:induction false} StepsHighlights(links: seq<string>, steps: seq<Edge>)
    ensures var pairs := Highlighted(StepsDirectives(links, steps));
      && |pairs| == |steps|
      && forall j :: 0 <= j < |steps| ==> pairs[j] == (steps[j].from, steps[j].to)
    decreases |steps|
  {
    if |steps| > 0 {
      var init := steps[..|steps| - 1];
      var last := steps[|steps| - 1];
      StepsHighlights(links, init);
      HighlightedAppend(StepsDirectives(links, init), StepDirectives(links, last));
      StepHighlight(links, last);
    }
  }

  /**
   A path of `n` tokens highlights `(n - 1) / 2` node pairs, the `j`-th being
   tokens `2 * j` and `2 * j + 2`: both nodes of every triple are highlighted,
   whether or not the edge between them was indexed, and a trailing token that
   completes no triple is ignored.
   */
  lemma PathHighlights(links: seq<string>, path: string)
    ensures var tokens := Split(path, PathSeparator);
      var pairs := Highlighted(PathDirectives(links, path));
      && |pairs| == (|tokens| - 1) / 2
      && forall j :: 0 <= j < |pairs| ==> 2 * j + 2 < |tokens| && pairs[j] == (tokens[2 * j], tokens[2 * j + 2])
  {
    StepsHighlights(links, PathSteps(Split(path, PathSeparator)));
  }

  lemma {:induction false} StepsLinkStyles(links: seq<string>, steps: seq<Edge>, k: nat)
    ensures LinkStyle(k) in StepsDirectives(links, steps)
      <==> exists j :: 0 <= j < |steps| && FirstIndex(links, Key(steps[j])) == Some(k)
    decreases |steps|
  {
    if |steps| > 0 {
      var init := steps[..|steps| - 1];
      var last := steps[|steps| - 1];
      StepsLinkStyles(links, init, k);
      var ds := StepDirectives(links, last);
      assert LinkStyle(k) in ds <==> FirstIndex(links, Key(last)) == Some(k) by {
        assert forall d :: d in ds <==> d == ds[0] || (|ds| == 2 && d == ds[1]);
      }
      if exists j :: 0 <= j < |steps| && FirstIndex(links, Key(steps[j])) == Some(k) {
        var j :| 0 <= j < |steps| && FirstIndex(links, Key(steps[j])) == Some(k);
        if j < |steps| - 1 {
          assert steps[j] == init[j];
        }
      }
      if exists j :: 0 <= j < |init| && FirstIndex(links, Key(init[j])) == Some(k) {
        var j :| 0 <= j < |init| && FirstIndex(links, Key(init[j])) == Some(k);
        assert steps[j] == init[j];
      }
    }
  }

  /** A triple of consecutive tokens at an even position, joined into a link key. */
  ghost predicate TripleKey(tokens: seq<string>, key: string) {
    exists j :: 0 <= j && 2 * j + 2 < |tokens| && key == tokens[2 * j] + "->" + tokens[2 * j + 1] + "->" + tokens[2 * j + 2]
  }

  lemma TokensLinkStyles(links: seq<string>, tokens: seq<string>, k: nat)
    ensures LinkStyle(k) in StepsDirectives(links, PathSteps(tokens))
      <==> k < |links| && (forall i :: 0 <= i < k ==> links[i] != links[k]) && TripleKey(tokens, links[k])
  {
    var walk := PathSteps(tokens);
    StepsLinkStyles(links, walk, k);
    if exists j :: 0 <= j < |walk| && FirstIndex(links, Key(walk[j])) == Some(k) {
      var j :| 0 <= j < |walk| && FirstIndex(links, Key(walk[j])) == Some(k);
      assert 2 * j + 2 < |tokens| && links[k] == tokens[2 * j] + "->" + tokens[2 * j + 1] + "->" + tokens[2 * j + 2];
    }
    if k < |links| && (forall i :: 0 <= i < k ==> links[i] != links[k]) && TripleKey(tokens, links[k]) {
      var j :| 0 <= j && 2 * j + 2 < |tokens| && links[k] == tokens[2 * j] + "->" + tokens[2 * j + 1] + "->" + tokens[2 * j + 2];
      StepAt(tokens, j, 2 * j);
      var found := FirstIndex(links, Key(walk[j]));
      assert links[k] in links;
      assert found == Some(k);
    }
  }

  /**
   A path appends `linkStyle k` exactly when one of its triples
   `tokens[2j] -> tokens[2j+1] -> tokens[2j+2]` is the key at position `k` of
   the link sequence and no earlier position holds that key.
   */
  lemma PathLinkStyles(links: seq<string>, path: string, k: nat)
    ensures LinkStyle(k) in PathDirectives(links, path)
      <==> k < |links| && (forall i :: 0 <= i < k ==> links[i] != links[k]) && TripleKey(Split(path, PathSeparator), links[k])
  {
    TokensLinkStyles(links, Split(path, PathSeparator), k);
  }
}
