/**
 Worked examples of the transform on concrete inputs: a line holding two
 edges, and a one-edge diagram with a decorated ending node taken all the way
 to the appended directives.
 */
module Scenarios {
  import opened Wrappers
  import opened Strings
  import opened EdgePattern
  import opened Decoration
  import opened LinkIndex
  import opened StyledGraph

  const TwoEdgeLine: string := "A-->|x|B-->|y|C"

  lemma TwoEdgeLineChars()
    ensures |TwoEdgeLine| == 15
    ensures forall i :: 0 <= i < 15 ==> !IsSpace(TwoEdgeLine[i])
    ensures TwoEdgeLine[1..5] == Arrow && TwoEdgeLine[8..12] == Arrow
    ensures forall i :: 0 <= i < 15 && i != 4 && i != 6 && i != 11 && i != 13 ==> TwoEdgeLine[i] != '|'
    ensures TwoEdgeLine[13] == '|' && TwoEdgeLine[12] == 'y' && TwoEdgeLine[14] == 'C'
    ensures forall i :: 0 <= i < 15 && i != 3 && i != 10 ==> TwoEdgeLine[i] != '>'
  {
  }

  /** The placement of the two-edge line: from-token 0..8, the second arrow at 8, closing bar at 13, to-token 14..15. */
  lemma TwoEdgeLineLocated()
    ensures LocateEdge(TwoEdgeLine) == Some(Span(0, 8, 8, 13, 14, 15))
  {
    var line := TwoEdgeLine;
    TwoEdgeLineChars();
    var m0 := Span(0, 8, 8, 13, 14, 15);
    assert IsEdge(line, m0);
    var m := LocateEdge(line).value;
    assert m.start == 0 && m.fromEnd >= 8;
    assert line[m.arrow + 2] == line[m.arrow..m.arrow + 4][2] == '>';
    assert m.arrow == 8;
    assert m.bar == 13 by {
      assert line[12] != '|';
    }
  }

  /**
   A line holding two edges inside one non-space run matches once, with the
   from-token running up to the LAST arrow: the engine keeps the longest
   from-token that still lets the rest of the pattern match.
   */
  lemma TwoEdgesOneLine()
    ensures MatchEdge(TwoEdgeLine) == Some(("A-->|x|B", "y", "C"))
  {
    var line := TwoEdgeLine;
    TwoEdgeLineLocated();
    TwoEdgeLineChars();
    assert line[0..8] == "A-->|x|B";
    assert line[12..13] == "y";
    assert line[14..15] == "C";
  }

  const EndToken: string := "E1((end))"

  /** The decoration `((end))` is cut from an ending token, leaving the identifier. */
  lemma EndTokenStripped()
    ensures Strip(EndToken) == "E1"
  {
    var s := EndToken;
    assert IsDecoration(s, 2, 7);
    var found := FindDecoration(s);
    assert found.value.0 == 2 by {
      assert s[0] != '(' && s[1] != '(';
    }
    assert found.value.1 == 7;
    assert s[..2] + s[9..] == "E1";
  }

  const SampleLine: string := "S1 -->|go| E1((end))"

  lemma SampleLineChars()
    ensures |SampleLine| == 20
    ensures forall i :: 0 <= i < 20 ==> (IsSpace(SampleLine[i]) <==> i == 2 || i == 10)
    ensures forall i :: 0 <= i < 20 ==> (SampleLine[i] == '|' <==> i == 6 || i == 9)
    ensures forall i :: 0 <= i < 20 ==> (SampleLine[i] == '>' <==> i == 5)
    ensures SampleLine[3..7] == Arrow
    ensures SampleLine[0..2] == "S1" && SampleLine[7..9] == "go" && SampleLine[11..20] == EndToken
    ensures forall i :: 0 <= i < 20 ==> SampleLine[i] != '\n'
  {
  }

  /** The sample line's edge placement: from-token at 0..2, arrow at 3, closing bar at 9, to-token at 11..20. */
  lemma SampleLineLocated()
    ensures LocateEdge(SampleLine) == Some(Span(0, 2, 3, 9, 11, 20))
  {
    var line := SampleLine;
    SampleLineChars();
    var m0 := Span(0, 2, 3, 9, 11, 20);
    assert IsEdge(line, m0);
    var m := LocateEdge(line).value;
    assert m.start == 0 && m.fromEnd >= 2;
    assert line[m.arrow + 2] == line[m.arrow..m.arrow + 4][2] == '>';
  }

  lemma SampleLineMatch()
    ensures MatchEdge(SampleLine) == Some(("S1", "go", EndToken))
  {
    SampleLineLocated();
    SampleLineChars();
  }

  /** The sample line yields the edge with the stripped to-node and the label as matched. */
  lemma SampleLineParsed()
    ensures ParseEdge(SampleLine) == Some(Edge("S1", "go", "E1"))
  {
    SampleLineMatch();
    EndTokenStripped();
    StripWithoutDoubleOpen("S1");
  }

  /** A text without a line feed is a single line. */
  lemma SingleLine(s: string)
    requires forall i :: 0 <= i < |s| ==> s[i] != '\n'
    ensures Split(s, "\n") == [s]
  {
    forall j | 0 <= j
      ensures !OccursAt(s, "\n", j)
    {
      if j + 1 <= |s| {
        assert s[j..j + 1][0] == s[j];
      }
    }
  }

  lemma SampleLines()
    ensures Split(SampleLine, "\n") == [SampleLine]
  {
    SampleLineChars();
    SingleLine(SampleLine);
  }

  const SampleEdge: Edge := Edge("S1", "go", "E1")

  lemma SampleEdges()
    ensures EdgesOf([SampleLine]) == [SampleEdge]
  {
    SampleLineParsed();
    EdgesOfOne(SampleLine);
  }

  lemma EdgesOfOne(line: string)
    ensures EdgesOf([line]) == if ParseEdge(line).Some? then [ParseEdge(line).value] else []
  {
    var ps := Parsed([line]);
    assert ps == [] + [ParseEdge(line)];
    SomesSnoc([], ParseEdge(line));
  }

  /** The key of the sample edge. */
  lemma SampleKey()
    ensures Key(SampleEdge) == "S1->go->E1"
  {
    assert "S1" + "->" + "go" == "S1->go";
    assert "S1->go" + "->" + "E1" == "S1->go->E1";
  }

  lemma SampleEdgeIndex()
    ensures IndexEdges([SampleEdge]) == Index(["S1->go->E1"], ["S1"], [], ["E1"])
  {
    OneEdgeIndex(SampleEdge);
    SampleKey();
    assert InCategory(SampleEdge, Start) && !InCategory(SampleEdge, Decision);
    assert InCategory(SampleEdge, Ending);
  }

  /** A single edge indexes its key and, per category, its node when the node qualifies. */
  lemma OneEdgeIndex(e: Edge)
    ensures IndexEdges([e]) == Index([Key(e)],
      if InCategory(e, Start) then [e.from] else [],
      if InCategory(e, Decision) then [e.from] else [],
      if InCategory(e, Ending) then [e.to] else [])
  {
    var edges := [e];
    assert edges[..0] == [];
    forall c: Category
      ensures InsertAll(Candidates(edges, c)) == if InCategory(e, c) then [NodeOf(e, c)] else []
    {
      if InCategory(e, c) {
        assert Candidates(edges, c) == [NodeOf(e, c)];
        assert [NodeOf(e, c)][..0] == [];
      } else {
        assert Candidates(edges, c) == [];
      }
    }
  }

  /** The sample source indexes one link, one start node and one ending node. */
  lemma SampleIndex()
    ensures IndexSource(SampleLine) == Index(["S1->go->E1"], ["S1"], [], ["E1"])
  {
    SampleLines();
    SampleEdges();
    SampleEdgeIndex();
  }

  const SamplePath: string := "S1 -> go -> E1"

  /** A path whose first separator sits right after a two-character token. */
  lemma SeparatorAtTwo(s: string)
    requires |s| >= 6 && s[2..6] == PathSeparator && s[0] != ' ' && s[1] != ' '
    ensures Split(s, PathSeparator) == [s[..2]] + Split(s[6..], PathSeparator)
  {
    assert OccursAt(s, PathSeparator, 2);
    assert s[0..4][0] == s[0] && s[1..5][0] == s[1];
    assert FindFrom(s, PathSeparator, 0) == Some(2);
    SplitAtFirst(s, PathSeparator, 2);
  }

  lemma ShortToken(c: string)
    requires |c| < |PathSeparator|
    ensures Split(c, PathSeparator) == [c]
  {
    assert FindFrom(c, PathSeparator, 0) == None;
  }

  lemma TwoTokens(b: string, c: string)
    requires |b| == 2 && |c| == 2 && b[0] != ' ' && b[1] != ' '
    ensures Split(b + PathSeparator + c, PathSeparator) == [b, c]
  {
    var s := b + PathSeparator + c;
    SeparatorAtTwo(s);
    assert s[..2] == b && s[6..] == c;
    ShortToken(c);
  }

  /** Three two-character tokens without spaces, joined by the separator, split back into themselves. */
  lemma ThreeTokens(a: string, b: string, c: string)
    requires |a| == 2 && |b| == 2 && |c| == 2
    requires a[0] != ' ' && a[1] != ' ' && b[0] != ' ' && b[1] != ' '
    ensures Split(a + PathSeparator + (b + PathSeparator + c), PathSeparator) == [a, b, c]
  {
    var tail := b + PathSeparator + c;
    var s := a + PathSeparator + tail;
    SeparatorAtTwo(s);
    assert s[..2] == a && s[6..] == tail;
    TwoTokens(b, c);
  }

  /** The sample path splits into three tokens: one step. */
  lemma SamplePathTokens()
    ensures Split(SamplePath, PathSeparator) == ["S1", "go", "E1"]
  {
    assert SamplePath == "S1" + PathSeparator + ("go" + PathSeparator + "E1");
    ThreeTokens("S1", "go", "E1");
  }

  const SampleIdx: Index := Index(["S1->go->E1"], ["S1"], [], ["E1"])

  lemma SamplePathDirectives()
    ensures PathsDirectives(SampleIdx.links, [SamplePath]) == [HighlightNodes("S1", "E1"), LinkStyle(0)]
  {
    var links := SampleIdx.links;
    SamplePathTokens();
    var steps := PathSteps(["S1", "go", "E1"]);
    assert steps == [SampleEdge];
    assert steps[..0] == [];
    SampleKey();
    assert FirstIndex(links, Key(SampleEdge)) == Some(0);
    assert StepDirectives(links, SampleEdge) == [HighlightNodes("S1", "E1"), LinkStyle(0)];
    assert [SamplePath][..0] == [];
  }

  lemma SampleIndexDirectives()
    ensures IndexDirectives(SampleIdx, [SamplePath])
      == [ClassAssign("S1", Start), ClassAssign("E1", Ending), CategoryDefs,
          HighlightNodes("S1", "E1"), LinkStyle(0), HighlightDef]
  {
    SamplePathDirectives();
    SampleCategoryDirectives();
  }

  lemma SampleCategoryDirectives()
    ensures CategoryDirectives(SampleIdx) == [ClassAssign("S1", Start), ClassAssign("E1", Ending), CategoryDefs]
  {
    assert CategoryAssigns(["S1"], Start) == [ClassAssign("S1", Start)];
    assert CategoryAssigns([], Decision) == [];
    assert CategoryAssigns(["E1"], Ending) == [ClassAssign("E1", Ending)];
  }

  /**
   The diagram `S1 -->|go| E1((end))` with the path `S1 -> go -> E1`: `S1` is a
   start node, the decoration is stripped so `E1` is an ending node, and the
   path highlights both nodes and styles link 0.
   */
  lemma SampleDirectives()
    ensures Directives(SampleLine, [SamplePath])
      == [ClassAssign("S1", Start), ClassAssign("E1", Ending), CategoryDefs,
          HighlightNodes("S1", "E1"), LinkStyle(0), HighlightDef]
  {
    SampleIndex();
    SampleIndexDirectives();
  }
}
