/**
 The edge indexer: one pass over the lines of the diagram source that records
 every labelled edge in `linkSequence` (its position there is the number the
 transform writes into `linkStyle`) and sorts node identifiers into the start,
 decision and ending sets by their first character.
 */
module LinkIndex {
  import opened Wrappers
  import opened Strings
  import opened EdgePattern
  import opened Decoration

  /** An edge as the indexer sees it: node identifiers stripped of decoration, label as matched. */
  datatype Edge = Edge(from: string, linkLabel: string, to: string)

  /** The canonical key `from->label->to` that both indexing and path lookup use. */
  function Key(e: Edge): string {
    e.from + "->" + e.linkLabel + "->" + e.to
  }

  /** A key is the from-node, `->`, the label, `->`, the to-node, with nothing in between. */
  lemma KeyLayout(e: Edge)
    ensures var k, i, j := Key(e), |e.from| + 2, |e.from| + 2 + |e.linkLabel| + 2;
      && |k| == j + |e.to|
      && k[..|e.from|] == e.from && k[|e.from|..i] == "->"
      && k[i..j - 2] == e.linkLabel && k[j - 2..j] == "->"
      && k[j..] == e.to
  {
  }

  /** The edge one line contributes, if the line matches the edge pattern. */
  function ParseEdge(line: string): Option<Edge> {
    match MatchEdge(line)
    case None => None
    case Some((from, linkLabel, to)) => Some(Edge(Strip(from), linkLabel, Strip(to)))
  }

  /**
   A line yields an edge exactly when it holds a match of the pattern; the node
   identifiers are the matched tokens with their decoration stripped, while the
   label is kept as matched: non-empty and free of `|`.
   */
  lemma ParseEdgeMatches(line: string)
    ensures ParseEdge(line).Some? <==> exists m :: IsEdge(line, m)
    ensures ParseEdge(line).Some? ==>
      var l := ParseEdge(line).value.linkLabel;
      |l| > 0 && AllIn(l, 0, |l|, NotBar)
    ensures ParseEdge(line).Some? ==>
      var e, g := ParseEdge(line).value, MatchEdge(line).value;
      e.from == Strip(g.0) && e.linkLabel == g.1 && e.to == Strip(g.2)
  {
  }

  /** The parse of every line, in line order. */
  function Parsed(lines: seq<string>): (r: seq<Option<Edge>>)
    ensures |r| == |lines|
    ensures forall i :: 0 <= i < |lines| ==> r[i] == ParseEdge(lines[i])
  {
    seq(|lines|, i requires 0 <= i < |lines| => ParseEdge(lines[i]))
  }

  /** The present values of `xs`, in order. */
  function Somes<T>(xs: seq<Option<T>>): seq<T>
    decreases |xs|
  {
    if |xs| == 0 then []
    else
      var earlier := Somes(xs[..|xs| - 1]);
      match xs[|xs| - 1]
      case None => earlier
      case Some(v) => earlier + [v]
  }

  /** The edges of `lines`, one per matching line, in line order. */
  function EdgesOf(lines: seq<string>): seq<Edge> {
    Somes(Parsed(lines))
  }

  function KeysOf(edges: seq<Edge>): (keys: seq<string>)
    ensures |keys| == |edges|
    ensures forall k :: 0 <= k < |edges| ==> keys[k] == Key(edges[k])
  {
    seq(|edges|, k requires 0 <= k < |edges| => Key(edges[k]))
  }

  /** The three node categories, in the order their directives are emitted. */
  datatype Category = Start | Decision | Ending

  /** The node of `e` that category `c` looks at: the from-node for start and decision, the to-node for ending. */
  function NodeOf(e: Edge, c: Category): string {
    if c == Ending then e.to else e.from
  }

  /** The reserved first letter of each category. */
  function Prefix(c: Category): char {
    match c
    case Start => 'S'
    case Decision => 'D'
    case Ending => 'E'
  }

  /** Edge `e` puts its node into category `c`. */
  predicate InCategory(e: Edge, c: Category) {
    StartsWith(NodeOf(e, c), Prefix(c))
  }

  /** The nodes `edges` add to category `c`, in edge order, repeats included. */
  function Candidates(edges: seq<Edge>, c: Category): seq<string>
    decreases |edges|
  {
    if |edges| == 0 then []
    else
      var e := edges[|edges| - 1];
      Candidates(edges[..|edges| - 1], c) + (if InCategory(e, c) then [NodeOf(e, c)] else [])
  }

  /** `Set.prototype.add` on an insertion-ordered set. */
  function AddOnce(xs: seq<string>, x: string): seq<string> {
    if x in xs then xs else xs + [x]
  }

  /** The insertion-ordered set that successive `add`s of `xs` build. */
  function InsertAll(xs: seq<string>): seq<string>
    decreases |xs|
  {
    if |xs| == 0 then [] else AddOnce(InsertAll(xs[..|xs| - 1]), xs[|xs| - 1])
  }

  /** `xs.findIndex(y => y == x)`, with `None` for `-1`: the first position holding `x`. */
  function FirstIndex<T(==)>(xs: seq<T>, x: T): (r: Option<nat>)
    ensures r.None? <==> x !in xs
    ensures r.Some? ==> r.value < |xs| && xs[r.value] == x
    ensures r.Some? ==> forall j :: 0 <= j < r.value ==> xs[j] != x
    decreases |xs|
  {
    if |xs| == 0 then None
    else if xs[0] == x then Some(0)
    else match FirstIndex(xs[1..], x)
      case None => None
      case Some(i) => Some(i + 1)
  }

  /** `a` first occurs in `xs` strictly before `b` first occurs. */
  predicate FirstSeenBefore(xs: seq<string>, a: string, b: string) {
    match (FirstIndex(xs, a), FirstIndex(xs, b))
    case (Some(i), Some(j)) => i < j
    case _ => false
  }

  predicate NoDuplicates(xs: seq<string>) {
    forall i, j :: 0 <= i < j < |xs| ==> xs[i] != xs[j]
  }

  /** The result of indexing: `linkSequence` and the three category sets in insertion order. */
  datatype Index = Index(links: seq<string>, starts: seq<string>, decisions: seq<string>, endings: seq<string>) {
    function Members(c: Category): seq<string> {
      match c
      case Start => starts
      case Decision => decisions
      case Ending => endings
    }
  }

  /** The index of a list of matched edges, stated per concern rather than as one pass. */
  function IndexEdges(edges: seq<Edge>): Index {
    Index(KeysOf(edges),
          InsertAll(Candidates(edges, Start)),
          InsertAll(Candidates(edges, Decision)),
          InsertAll(Candidates(edges, Ending)))
  }

  /** The index of a list of lines. */
  function IndexLines(lines: seq<string>): Index {
    IndexEdges(EdgesOf(lines))
  }

  /** The index of a diagram source: its lines are the pieces of `split("\n")`. */
  function IndexSource(graphCode: string): Index {
    IndexLines(Split(graphCode, "\n"))
  }

  /**
   The single pass of the source: each matching line appends its key to the link
   sequence and adds its nodes to the sets their first letters select, all in
   one step. The result is the per-concern index.
   */
  method BuildIndex(lines: seq<string>) returns (idx: Index)
    ensures idx == IndexLines(lines)
  {
    var links: seq<string> := [];
    var starts: seq<string> := [];
    var decisions: seq<string> := [];
    var endings: seq<string> := [];
    var n := 0;
    while n < |lines|
      invariant n <= |lines|
      invariant Index(links, starts, decisions, endings) == IndexLines(lines[..n])
    {
      assert lines[..n + 1] == lines[..n] + [lines[n]];
      IndexLinesSnoc(lines[..n], lines[n]);
      var found := MatchEdge(lines[n]);
      if found.Some? {
        var fromNode := Strip(found.value.0);
        var toNode := Strip(found.value.2);
        IndexEdgesSnoc(EdgesOf(lines[..n]), Edge(fromNode, found.value.1, toNode));
        if StartsWith(fromNode, 'S') { starts := AddOnce(starts, fromNode); }
        if StartsWith(fromNode, 'D') { decisions := AddOnce(decisions, fromNode); }
        if StartsWith(toNode, 'E') { endings := AddOnce(endings, toNode); }
        links := links + [fromNode + "->" + found.value.1 + "->" + toNode];
      }
      n := n + 1;
    }
    assert lines[..n] == lines;
    idx := Index(links, starts, decisions, endings);
  }

  /** One more line: a matching line appends its key and adds its nodes to the selected sets; any other line changes nothing. */
  lemma IndexLinesSnoc(lines: seq<string>, line: string)
    ensures ParseEdge(line).None? ==> IndexLines(lines + [line]) == IndexLines(lines)
    ensures ParseEdge(line).Some? ==> IndexLines(lines + [line]) == IndexEdges(EdgesOf(lines) + [ParseEdge(line).value])
  {
    var ps := Parsed(lines);
    assert Parsed(lines + [line]) == ps + [ParseEdge(line)];
    SomesSnoc(ps, ParseEdge(line));
  }

  lemma SomesSnoc<T>(xs: seq<Option<T>>, x: Option<T>)
    ensures Somes(xs + [x]) == Somes(xs) + (if x.Some? then [x.value] else [])
  {
    assert (xs + [x])[..|xs|] == xs;
    if x.None? {
      assert Somes(xs) + [] == Somes(xs);
    }
  }

  /** Indexing one more edge: its key is appended and its nodes are added to the sets their first letters select. */
  lemma IndexEdgesSnoc(edges: seq<Edge>, e: Edge)
    ensures var before := IndexEdges(edges);
      var after := IndexEdges(edges + [e]);
      && after.links == before.links + [Key(e)]
      && after.starts == (if StartsWith(e.from, 'S') then AddOnce(before.starts, e.from) else before.starts)
      && after.decisions == (if StartsWith(e.from, 'D') then AddOnce(before.decisions, e.from) else before.decisions)
      && after.endings == (if StartsWith(e.to, 'E') then AddOnce(before.endings, e.to) else before.endings)
  {
    KeysOfSnoc(edges, e);
    InsertCandidate(edges, e, Start);
    InsertCandidate(edges, e, Decision);
    InsertCandidate(edges, e, Ending);
  }

  lemma KeysOfSnoc(edges: seq<Edge>, e: Edge)
    ensures KeysOf(edges + [e]) == KeysOf(edges) + [Key(e)]
  {
    var keys := KeysOf(edges + [e]);
    var expected := KeysOf(edges) + [Key(e)];
    assert |keys| == |expected|;
    forall k | 0 <= k < |keys|
      ensures keys[k] == expected[k]
    {
      assert keys[k] == Key((edges + [e])[k]);
    }
  }

  lemma InsertCandidate(edges: seq<Edge>, e: Edge, c: Category)
    ensures InsertAll(Candidates(edges + [e], c))
      == if InCategory(e, c) then AddOnce(InsertAll(Candidates(edges, c)), NodeOf(e, c)) else InsertAll(Candidates(edges, c))
  {
    assert (edges + [e])[..|edges|] == edges;
    var xs := Candidates(edges, c);
    if InCategory(e, c) {
      assert Candidates(edges + [e], c) == xs + [NodeOf(e, c)];
      assert (xs + [NodeOf(e, c)])[..|xs|] == xs;
    } else {
      assert Candidates(edges + [e], c) == xs + [];
      assert xs + [] == xs;
    }
  }

  /** The number of lines before line `i` that match the edge pattern. */
  function MatchesBefore(lines: seq<string>, i: nat): nat
    requires i <= |lines|
  {
    var ps := Parsed(lines);
    |set j | 0 <= j < i && ps[j].Some?|
  }

  lemma {:induction false} SomesCount<T>(xs: seq<Option<T>>, i: nat)
    requires i <= |xs|
    ensures |Somes(xs[..i])| == |set j | 0 <= j < i && xs[j].Some?|
  {
    if i > 0 {
      SomesCount(xs, i - 1);
      assert xs[..i] == xs[..i - 1] + [xs[i - 1]];
      SomesSnoc(xs[..i - 1], xs[i - 1]);
      var before := set j | 0 <= j < i - 1 && xs[j].Some?;
      var now := set j | 0 <= j < i && xs[j].Some?;
      if xs[i - 1].Some? {
        assert now == before + {i - 1};
      } else {
        assert now == before;
      }
    } else {
      assert xs[..0] == [];
    }
  }

  /** A present value at position `i` lands at the position given by the number of present values before it. */
  lemma SomesAt<T>(xs: seq<Option<T>>, i: nat)
    requires i < |xs| && xs[i].Some?
    ensures |Somes(xs[..i])| < |Somes(xs)|
    ensures Somes(xs)[|Somes(xs[..i])|] == xs[i].value
  {
    SomesPrefix(xs, i + 1);
    assert xs[..i + 1] == xs[..i] + [xs[i]];
    SomesSnoc(xs[..i], xs[i]);
    var k := |Somes(xs[..i])|;
    assert Somes(xs)[k] == Somes(xs[..i + 1])[k];
  }

  lemma {:induction false} SomesPrefix<T>(xs: seq<Option<T>>, n: nat)
    requires n <= |xs|
    ensures |Somes(xs[..n])| <= |Somes(xs)|
    ensures Somes(xs[..n]) == Somes(xs)[..|Somes(xs[..n])|]
    decreases |xs| - n
  {
    if n == |xs| {
      assert xs[..n] == xs;
    } else {
      SomesPrefix(xs, n + 1);
      assert xs[..n + 1] == xs[..n] + [xs[n]];
      SomesSnoc(xs[..n], xs[n]);
    }
  }

  /**
   `linkSequence` holds one key per matching line, in line order, duplicates kept:
   its length is the number of matching lines, and the edge on a matching line
   `i` sits at the position given by the number of matching lines before `i`.
   */
  lemma LinkPositions(lines: seq<string>, i: nat)
    requires i < |lines| && ParseEdge(lines[i]).Some?
    ensures |IndexLines(lines).links| == MatchesBefore(lines, |lines|)
    ensures MatchesBefore(lines, i) < |IndexLines(lines).links|
    ensures IndexLines(lines).links[MatchesBefore(lines, i)] == Key(ParseEdge(lines[i]).value)
  {
    var ps := Parsed(lines);
    var e := ParseEdge(lines[i]).value;
    assert ps[..|ps|] == ps;
    SomesCount(ps, |ps|);
    SomesCount(ps, i);
    SomesAt(ps, i);
  }

  /** Every present value comes from some position: the `k`-th value is at the position with `k` values before it. */
  lemma {:induction false} SomesSource<T>(xs: seq<Option<T>>, k: nat)
    requires k < |Somes(xs)|
    ensures exists i :: 0 <= i < |xs| && xs[i].Some? && |Somes(xs[..i])| == k
    decreases |xs|
  {
    var n := |xs|;
    var init := xs[..n - 1];
    assert xs == init + [xs[n - 1]];
    SomesSnoc(init, xs[n - 1]);
    if k < |Somes(init)| {
      SomesSource(init, k);
      var i :| 0 <= i < |init| && init[i].Some? && |Somes(init[..i])| == k;
      assert init[..i] == xs[..i];
      assert xs[i] == init[i];
    } else {
      assert xs[..n - 1] == init;
    }
  }

  /**
   Conversely, every position of `linkSequence` comes from a matching line: the
   key at position `k` is the edge of the line that has exactly `k` matching
   lines before it.
   */
  lemma LinkOrigin(lines: seq<string>, k: nat)
    requires k < |IndexLines(lines).links|
    ensures exists i :: (0 <= i < |lines| && ParseEdge(lines[i]).Some? && MatchesBefore(lines, i) == k
                          && IndexLines(lines).links[k] == Key(ParseEdge(lines[i]).value))
  {
    var ps := Parsed(lines);
    SomesSource(ps, k);
    var i :| 0 <= i < |ps| && ps[i].Some? && |Somes(ps[..i])| == k;
    LinkPositions(lines, i);
    SomesCount(ps, i);
  }

  lemma {:induction false} FirstIndexSnoc(xs: seq<string>, x: string, y: string)
    ensures y in xs ==> FirstIndex(xs + [x], y) == FirstIndex(xs, y)
    ensures y !in xs && y == x ==> FirstIndex(xs + [x], y) == Some(|xs|)
  {
    var r := FirstIndex(xs + [x], y);
    if y in xs {
      var k := FirstIndex(xs, y).value;
      assert (xs + [x])[k] == y;
    } else if y == x {
      assert (xs + [x])[|xs|] == y;
    }
  }

  /**
   An insertion-ordered set built by successive `add`s holds every added value
   exactly once, and orders the values by their first addition.
   */
  lemma {:induction false} InsertAllIsOrderedSet(xs: seq<string>)
    ensures var ys := InsertAll(xs);
      && NoDuplicates(ys)
      && (forall x :: x in ys <==> x in xs)
      && (forall i, j :: 0 <= i < j < |ys| ==> FirstSeenBefore(xs, ys[i], ys[j]))
    decreases |xs|
  {
    if |xs| > 0 {
      var init := xs[..|xs| - 1];
      var x := xs[|xs| - 1];
      InsertAllIsOrderedSet(init);
      assert xs == init + [x];
      var prev := InsertAll(init);
      var ys := InsertAll(xs);
      forall y | y in init
        ensures FirstIndex(xs, y) == FirstIndex(init, y)
      {
        FirstIndexSnoc(init, x, y);
      }
      if x !in prev {
        assert ys == prev + [x];
        FirstIndexSnoc(init, x, x);
        forall i, j | 0 <= i < j < |ys|
          ensures FirstSeenBefore(xs, ys[i], ys[j])
        {
          assert ys[i] == prev[i] && ys[i] in init;
          if j < |prev| {
            assert ys[j] == prev[j] && ys[j] in init;
          }
        }
      } else {
        forall i, j | 0 <= i < j < |ys|
          ensures FirstSeenBefore(xs, ys[i], ys[j])
        {
          assert ys[i] in init && ys[j] in init;
        }
      }
    }
  }

  lemma {:induction false} CandidatesMembers(edges: seq<Edge>, c: Category)
    ensures forall x :: x in Candidates(edges, c) <==> exists e :: e in edges && InCategory(e, c) && NodeOf(e, c) == x
    decreases |edges|
  {
    if |edges| > 0 {
      var init := edges[..|edges| - 1];
      var last := edges[|edges| - 1];
      CandidatesMembers(init, c);
      assert edges == init + [last];
      forall x | exists e :: e in edges && InCategory(e, c) && NodeOf(e, c) == x
        ensures x in Candidates(edges, c)
      {
        var e :| e in edges && InCategory(e, c) && NodeOf(e, c) == x;
        if e != last {
          assert e in init;
        }
      }
    }
  }

  /**
   Category membership is decided by first letters alone: a node is in a
   category exactly when some matched edge puts it there (from-node `S...` for
   start, from-node `D...` for decision, to-node `E...` for ending). Each member
   appears once, and members are ordered by their first appearance.
   */
  lemma CategoryMembers(lines: seq<string>, c: Category)
    ensures var members := IndexLines(lines).Members(c);
      && NoDuplicates(members)
      && (forall x :: x in members <==> exists e :: e in EdgesOf(lines) && InCategory(e, c) && NodeOf(e, c) == x)
      && (forall x :: x in members ==> StartsWith(x, Prefix(c)))
      && (forall i, j :: 0 <= i < j < |members| ==> FirstSeenBefore(Candidates(EdgesOf(lines), c), members[i], members[j]))
  {
    var edges := EdgesOf(lines);
    CandidatesMembers(edges, c);
    InsertAllIsOrderedSet(Candidates(edges, c));
  }

  /** No node is in two categories: their first letters differ. */
  lemma CategoriesDisjoint(lines: seq<string>)
    ensures var idx := IndexLines(lines);
      forall x :: !(x in idx.starts && x in idx.decisions)
        && !(x in idx.starts && x in idx.endings)
        && !(x in idx.decisions && x in idx.endings)
  {
    CategoryMembers(lines, Start);
    CategoryMembers(lines, Decision);
    CategoryMembers(lines, Ending);
  }
}
