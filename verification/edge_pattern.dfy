/**
 The labelled-edge matcher: what `line.match(/([^\s]+)\s*-->\|([^\|]+)\|\s*([^\s]+)/)`
 returns for one line of the diagram source, without a general regular-expression
 engine.

 The JavaScript engine tries start positions from left to right. At each start it
 first lets the from-token `[^\s]+` take as much as it can and backtracks one
 character at a time. Once the end of the from-token is fixed, every later part
 has exactly one length that can succeed: `\s*` must stop where the `-` of the
 arrow begins, `[^\|]+` must stop at the first `|`, the second `\s*` must stop
 at the first non-space, and the final `[^\s]+` keeps its greedy length. So the
 search is over (start, end of from-token) only, and the outcome is the match
 with the leftmost start and, for that start, the longest from-token. A line
 that holds two edges inside one non-space run (`A-->|x|B-->|y|C`) therefore
 yields the from-token `A-->|x|B` and the LAST arrow.
 */
module EdgePattern {
  import opened Wrappers
  import opened Strings

  const Arrow: string := "-->|"

  /**
   Positions of one match inside a line: the from-token is `line[start..fromEnd]`,
   the arrow `-->|` begins at `arrow`, the label is `line[arrow + 4..bar]`, the
   closing `|` is at `bar`, the to-token is `line[toStart..toEnd]`.
   */
  datatype Span = Span(start: nat, fromEnd: nat, arrow: nat, bar: nat, toStart: nat, toEnd: nat)

  /** `m` is a match of the edge pattern in `line` (any one, not necessarily the one JavaScript returns). */
  predicate IsEdge(line: string, m: Span) {
    && m.start < m.fromEnd <= m.arrow
    && m.arrow + |Arrow| < m.bar < m.toStart < m.toEnd <= |line|
    && AllIn(line, m.start, m.fromEnd, NonSpace)
    && AllIn(line, m.fromEnd, m.arrow, Space)
    && line[m.arrow..m.arrow + |Arrow|] == Arrow
    && AllIn(line, m.arrow + |Arrow|, m.bar, NotBar)
    && line[m.bar] == '|'
    && AllIn(line, m.bar + 1, m.toStart, Space)
    && AllIn(line, m.toStart, m.toEnd, NonSpace)
  }

  /** The final greedy `[^\s]+` has taken every non-space character it could. */
  predicate ToTokenMaximal(line: string, m: Span) {
    m.toEnd <= |line| && (m.toEnd == |line| || IsSpace(line[m.toEnd]))
  }

  /** Among all matches, `m` starts leftmost and, at that start, has the longest from-token. */
  ghost predicate LeftmostLongest(line: string, m: Span) {
    forall m' :: IsEdge(line, m') ==> m.start < m'.start || (m.start == m'.start && m'.fromEnd <= m.fromEnd)
  }

  /** The rest of the pattern once the from-token is fixed to `line[p..q]`. */
  function TryAt(line: string, p: nat, q: nat): (r: Option<Span>)
    requires p < q <= |line|
    requires AllIn(line, p, q, NonSpace)
    ensures r.Some? ==> r.value.start == p && r.value.fromEnd == q
    ensures r.Some? ==> IsEdge(line, r.value) && ToTokenMaximal(line, r.value)
    ensures r.None? ==> forall m :: IsEdge(line, m) && m.start == p ==> m.fromEnd != q
  {
    var a := RunEnd(line, q, Space);
    if a + |Arrow| <= |line| && line[a..a + |Arrow|] == Arrow then
      var b := RunEnd(line, a + |Arrow|, NotBar);
      if a + |Arrow| < b < |line| then
        var u := RunEnd(line, b + 1, Space);
        if u < |line| then
          Some(Span(p, q, a, b, u, RunEnd(line, u, NonSpace)))
        else
          assert NoEdgeFrom(line, p, q) by { TryAtFails(line, p, q); }
          None
      else
        assert NoEdgeFrom(line, p, q) by { TryAtFails(line, p, q); }
        None
    else
      assert NoEdgeFrom(line, p, q) by { TryAtFails(line, p, q); }
      None
  }

  /** No match has the from-token `line[p..q]`. */
  ghost predicate NoEdgeFrom(line: string, p: nat, q: nat) {
    forall m :: IsEdge(line, m) && m.start == p ==> m.fromEnd != q
  }

  /**
   Any match whose from-token is `line[p..q]` has its arrow, closing bar and
   to-token start exactly where the scan in `TryAt` looks for them; so when the
   scan finds nothing, there is no such match.
   */
  lemma TryAtFails(line: string, p: nat, q: nat)
    requires p < q <= |line|
    ensures forall m :: IsEdge(line, m) && m.start == p && m.fromEnd == q ==>
      && m.arrow == RunEnd(line, q, Space)
      && m.bar == RunEnd(line, m.arrow + |Arrow|, NotBar)
      && m.toStart == RunEnd(line, m.bar + 1, Space)
  {
    forall m | IsEdge(line, m) && m.start == p && m.fromEnd == q
      ensures m.arrow == RunEnd(line, q, Space)
    {
      assert line[m.arrow] == line[m.arrow..m.arrow + |Arrow|][0];
      RunEndUnique(line, q, m.arrow, Space);
    }
    forall m | IsEdge(line, m) && m.start == p && m.fromEnd == q
      ensures m.bar == RunEnd(line, m.arrow + |Arrow|, NotBar)
    {
      RunEndUnique(line, m.arrow + |Arrow|, m.bar, NotBar);
    }
    forall m | IsEdge(line, m) && m.start == p && m.fromEnd == q
      ensures m.toStart == RunEnd(line, m.bar + 1, Space)
    {
      RunEndUnique(line, m.bar + 1, m.toStart, Space);
    }
  }

  /** Backtracking over the from-token: try ends `q`, `q - 1`, ..., `p + 1`. */
  function SearchFrom(line: string, p: nat, q: nat): (r: Option<Span>)
    requires p < q <= |line|
    requires AllIn(line, p, q, NonSpace)
    ensures r.Some? ==> r.value.start == p && r.value.fromEnd <= q
    ensures r.Some? ==> IsEdge(line, r.value) && ToTokenMaximal(line, r.value)
    ensures r.Some? ==> forall m :: IsEdge(line, m) && m.start == p && m.fromEnd <= q ==> m.fromEnd <= r.value.fromEnd
    ensures r.None? ==> forall m :: IsEdge(line, m) && m.start == p ==> m.fromEnd > q
    decreases q
  {
    match TryAt(line, p, q)
    case Some(m) => Some(m)
    case None => if q == p + 1 then None else SearchFrom(line, p, q - 1)
  }

  /** The engine's scan over start positions `p`, `p + 1`, ... */
  function MatchFrom(line: string, p: nat): (r: Option<Span>)
    requires p <= |line|
    ensures r.Some? ==> p <= r.value.start && IsEdge(line, r.value) && ToTokenMaximal(line, r.value)
    ensures r.Some? ==> forall m :: IsEdge(line, m) && p <= m.start ==>
      r.value.start < m.start || (r.value.start == m.start && m.fromEnd <= r.value.fromEnd)
    ensures r.None? ==> forall m :: IsEdge(line, m) ==> m.start < p
    decreases |line| - p
  {
    if p == |line| then None
    else if IsSpace(line[p]) then MatchFrom(line, p + 1)
    else
      var runEnd := RunEnd(line, p, NonSpace);
      match SearchFrom(line, p, runEnd)
      case Some(m) => Some(m)
      case None => MatchFrom(line, p + 1)
  }

  /**
   The match JavaScript reports: present exactly when some match exists; it is
   a match, starts leftmost, has the longest from-token at that start, and its
   to-token runs to the next space or the end of the line.
   */
  function LocateEdge(line: string): (r: Option<Span>)
    ensures r.None? <==> forall m :: !IsEdge(line, m)
    ensures r.Some? ==> IsEdge(line, r.value) && ToTokenMaximal(line, r.value)
    ensures r.Some? ==> LeftmostLongest(line, r.value)
  {
    MatchFrom(line, 0)
  }

  /** The three capture groups `match[1]`, `match[2]`, `match[3]`, or `None` when the line does not match. */
  function MatchEdge(line: string): (r: Option<(string, string, string)>)
    ensures r.None? <==> forall m :: !IsEdge(line, m)
    ensures r.Some? ==> LocateEdge(line).Some? && var m := LocateEdge(line).value;
      r.value == (line[m.start..m.fromEnd], line[m.arrow + |Arrow|..m.bar], line[m.toStart..m.toEnd])
    ensures r.Some? ==> |r.value.0| > 0 && AllIn(r.value.0, 0, |r.value.0|, NonSpace)
    ensures r.Some? ==> |r.value.1| > 0 && AllIn(r.value.1, 0, |r.value.1|, NotBar)
    ensures r.Some? ==> |r.value.2| > 0 && AllIn(r.value.2, 0, |r.value.2|, NonSpace)
  {
    match LocateEdge(line)
    case None => None
    case Some(m) =>
      AllInSlice(line, m.start, m.fromEnd, NonSpace);
      AllInSlice(line, m.arrow + |Arrow|, m.bar, NotBar);
      AllInSlice(line, m.toStart, m.toEnd, NonSpace);
      Some((line[m.start..m.fromEnd], line[m.arrow + |Arrow|..m.bar], line[m.toStart..m.toEnd]))
  }
}
