/** generate_dot of both variants: the graph as Graphviz DOT text. */
module Dot {
  import opened Graph

  const Header := "digraph Dependencies {\n"
  const Footer := "}"

  /** The line for one edge: four spaces, the quoted package, an arrow, the quoted dependency. */
  function EdgeLine(pkg: string, dep: string): string {
    "    \"" + pkg + "\" -> \"" + dep + "\";\n"
  }

  /** The edges of one entry, one per element of its list. */
  function Pairs(pkg: string, deps: seq<string>): (r: seq<(string, string)>)
    ensures |r| == |deps|
  {
    seq(|deps|, k requires 0 <= k < |deps| => (pkg, deps[k]))
  }

  /** Every (package, dependency) pair, entry by entry in insertion order, then list order. */
  function Edges(g: Dict): seq<(string, string)> {
    if g == [] then [] else Edges(g[..|g| - 1]) + Pairs(g[|g| - 1].0, g[|g| - 1].1)
  }

  function Lines(es: seq<(string, string)>): string {
    if es == [] then "" else Lines(es[..|es| - 1]) + EdgeLine(es[|es| - 1].0, es[|es| - 1].1)
  }

  /** The text generate_dot returns. */
  function Dot(g: Dict): string {
    Header + Lines(Edges(g)) + Footer
  }

  // ---------------------------------------------------------------------------
  // The edges

  lemma {:induction false} EdgesConcat(a: Dict, b: Dict)
    ensures Edges(a + b) == Edges(a) + Edges(b)
    decreases |b|
  {
    if b != [] {
      var n := |b| - 1;
      assert (a + b)[..|a + b| - 1] == a + b[..n];
      assert Edges(a + b) == Edges(a + b[..n]) + Pairs(b[n].0, b[n].1);
      EdgesConcat(a, b[..n]);
    } else {
      assert a + b == a;
    }
  }

  /** An edge is drawn exactly for each element of each entry's list. */
  lemma {:induction false} EdgeMembership(g: Dict, pkg: string, dep: string)
    ensures (pkg, dep) in Edges(g) <==> exists i :: 0 <= i < |g| && g[i].0 == pkg && dep in g[i].1
    decreases |g|
  {
    if g != [] {
      var n := |g| - 1;
      EdgeMembership(g[..n], pkg, dep);
      var last := Pairs(g[n].0, g[n].1);
      assert (pkg, dep) in last <==> g[n].0 == pkg && dep in g[n].1 by {
        if (pkg, dep) in last {
          var k :| 0 <= k < |last| && last[k] == (pkg, dep);
        }
        if g[n].0 == pkg && dep in g[n].1 {
          var k :| 0 <= k < |g[n].1| && g[n].1[k] == dep;
          assert last[k] == (pkg, dep);
        }
      }
      if exists i :: 0 <= i < |g| && g[i].0 == pkg && dep in g[i].1 {
        var i :| 0 <= i < |g| && g[i].0 == pkg && dep in g[i].1;
        if i < n {
          assert g[..n][i] == g[i];
        }
      }
      if exists i :: 0 <= i < n && g[..n][i].0 == pkg && dep in g[..n][i].1 {
        var i :| 0 <= i < n && g[..n][i].0 == pkg && dep in g[..n][i].1;
        assert g[i] == g[..n][i];
      }
    }
  }

  /** Total length of all dependency lists. */
  function ListLengths(g: Dict): nat {
    if g == [] then 0 else ListLengths(g[..|g| - 1]) + |g[|g| - 1].1|
  }

  /** One edge per list element: duplicates in a list are drawn twice. */
  lemma {:induction false} EdgeCount(g: Dict)
    ensures |Edges(g)| == ListLengths(g)
    decreases |g|
  {
    if g != [] {
      EdgeCount(g[..|g| - 1]);
    }
  }

  /** An entry with an empty list draws no edge, wherever it sits. */
  lemma EmptyListNoEdges(a: Dict, pkg: string, b: Dict)
    ensures Edges(a + [(pkg, [])] + b) == Edges(a + b)
  {
    EdgesConcat(a + [(pkg, [])], b);
    EdgesConcat(a, [(pkg, [])]);
    EdgesConcat(a, b);
    var none: seq<string> := [];
    assert Edges([(pkg, none)]) == [] by {
      assert [(pkg, none)][..0] == [];
    }
  }

  // ---------------------------------------------------------------------------
  // The text

  lemma {:induction false} LinesConcat(a: seq<(string, string)>, b: seq<(string, string)>)
    ensures Lines(a + b) == Lines(a) + Lines(b)
    decreases |b|
  {
    if b != [] {
      var n := |b| - 1;
      assert (a + b)[..|a + b| - 1] == a + b[..n];
      assert Lines(a + b) == Lines(a + b[..n]) + EdgeLine(b[n].0, b[n].1);
      LinesConcat(a, b[..n]);
    } else {
      assert a + b == a;
    }
  }

  /** Occurrences of `c` in `s`. */
  function Occurrences(s: string, c: char): nat {
    if s == [] then 0 else Occurrences(s[..|s| - 1], c) + (if s[|s| - 1] == c then 1 else 0)
  }

  lemma {:induction false} OccurrencesConcat(s: string, t: string, c: char)
    ensures Occurrences(s + t, c) == Occurrences(s, c) + Occurrences(t, c)
    decreases |t|
  {
    if t != [] {
      var n := |t| - 1;
      assert (s + t)[..|s + t| - 1] == s + t[..n];
      assert Occurrences(s + t, c) == Occurrences(s + t[..n], c) + (if t[n] == c then 1 else 0);
      OccurrencesConcat(s, t[..n], c);
    } else {
      assert s + t == s;
    }
  }

  lemma {:induction false} OccurrencesAbsent(s: string, c: char)
    requires c !in s
    ensures Occurrences(s, c) == 0
    decreases |s|
  {
    if s != [] {
      OccurrencesAbsent(s[..|s| - 1], c);
    }
  }

  predicate SingleLine(name: string) {
    '\n' !in name
  }

  /** A text that holds no `c` and then `c` itself holds one. */
  lemma OccursOnceAtEnd(s: string, c: char)
    requires c !in s
    ensures Occurrences(s + [c], c) == 1
  {
    assert (s + [c])[..|s|] == s;
    OccurrencesAbsent(s, c);
  }

  /** Each edge line ends in the only line break it holds. */
  lemma EdgeLineBreaks(pkg: string, dep: string)
    requires SingleLine(pkg) && SingleLine(dep)
    ensures Occurrences(EdgeLine(pkg, dep), '\n') == 1
  {
    var body := "    \"" + pkg + "\" -> \"" + dep + "\";";
    assert EdgeLine(pkg, dep) == body + ['\n'];
    assert '\n' !in body;
    OccursOnceAtEnd(body, '\n');
  }

  lemma {:induction false} LinesBreaks(es: seq<(string, string)>)
    requires forall k :: 0 <= k < |es| ==> SingleLine(es[k].0) && SingleLine(es[k].1)
    ensures Occurrences(Lines(es), '\n') == |es|
    decreases |es|
  {
    if es != [] {
      var n := |es| - 1;
      LinesBreaks(es[..n]);
      EdgeLineBreaks(es[n].0, es[n].1);
      OccurrencesConcat(Lines(es[..n]), EdgeLine(es[n].0, es[n].1), '\n');
    }
  }

  /** The names of the drawn edges, when none spans lines. */
  predicate SingleLineNames(g: Dict) {
    forall i :: 0 <= i < |g| ==> SingleLine(g[i].0) && forall d :: d in g[i].1 ==> SingleLine(d)
  }

  /**
   * When no name holds a line break, the text has the header line plus one
   * line per edge, and then the closing brace with no line break after it.
   */
  lemma DotLineCount(g: Dict)
    requires SingleLineNames(g)
    ensures Occurrences(Dot(g), '\n') == 1 + ListLengths(g)
    ensures Dot(g)[..|Header|] == Header && Dot(g)[|Dot(g)| - 1] == '}'
  {
    var es := Edges(g);
    EdgesSingleLine(g);
    LinesBreaks(es);
    EdgeCount(g);
    OccurrencesConcat(Header + Lines(es), Footer, '\n');
    OccurrencesConcat(Header, Lines(es), '\n');
    OccurrencesAbsent(Footer, '\n');
    assert Header == "digraph Dependencies {" + ['\n'];
    OccursOnceAtEnd("digraph Dependencies {", '\n');
  }

  lemma EdgesSingleLine(g: Dict)
    requires SingleLineNames(g)
    ensures forall k :: 0 <= k < |Edges(g)| ==> SingleLine(Edges(g)[k].0) && SingleLine(Edges(g)[k].1)
  {
    var es := Edges(g);
    forall k | 0 <= k < |es| ensures SingleLine(es[k].0) && SingleLine(es[k].1) {
      EdgeMembership(g, es[k].0, es[k].1);
      assert es[k] in es;
    }
  }

  // ---------------------------------------------------------------------------
  // The string accumulation of generate_dot

  method GenerateDot(g: Dict) returns (dot: string)
    ensures dot == Dot(g)
  {
    dot := Header;
    for i := 0 to |g|
      invariant dot == Header + Lines(Edges(g[..i]))
    {
      var pkg, deps := g[i].0, g[i].1;
      assert Edges(g[..i]) + Pairs(pkg, deps[..0]) == Edges(g[..i]);
      for j := 0 to |deps|
        invariant dot == Header + Lines(Edges(g[..i]) + Pairs(pkg, deps[..j]))
      {
        AppendEdge(Edges(g[..i]), pkg, deps, j);
        dot := dot + EdgeLine(pkg, deps[j]);
      }
      assert deps[..|deps|] == deps;
      assert g[..i + 1][..i] == g[..i];
      assert Edges(g[..i + 1]) == Edges(g[..i]) + Pairs(pkg, deps);
    }
    assert g[..|g|] == g;
    dot := dot + Footer;
  }

  lemma AppendEdge(es: seq<(string, string)>, pkg: string, deps: seq<string>, j: nat)
    requires j < |deps|
    ensures Lines(es + Pairs(pkg, deps[..j + 1])) == Lines(es + Pairs(pkg, deps[..j])) + EdgeLine(pkg, deps[j])
  {
    assert es + Pairs(pkg, deps[..j + 1]) == (es + Pairs(pkg, deps[..j])) + [(pkg, deps[j])];
    LinesConcat(es + Pairs(pkg, deps[..j]), [(pkg, deps[j])]);
    assert Lines([(pkg, deps[j])]) == EdgeLine(pkg, deps[j]) by {
      assert [(pkg, deps[j])][..0] == [];
    }
  }

  // ---------------------------------------------------------------------------
  // The test suite's graph

  function SampleGraph(): Dict {
    [("PackageA", ["PackageB", "PackageC"]), ("PackageB", ["PackageD"]), ("PackageC", []), ("PackageD", [])]
  }

  lemma TestSuiteEdges()
    ensures Edges(SampleGraph()) == [("PackageA", "PackageB"), ("PackageA", "PackageC"), ("PackageB", "PackageD")]
  {
    var g := SampleGraph();
    var a, b := g[0], g[1];
    assert g == [a, b] + [g[2]] + [g[3]];
    EmptyListNoEdges([a, b], "PackageC", [g[3]]);
    EmptyListNoEdges([a, b], "PackageD", []);
    assert [a, b] + [g[3]] + [] == [a, b] + [g[3]];
    assert [a, b] + [] == [a, b];
    assert [a, b][..1] == [a] && [a][..0] == [];
    assert Edges([a, b]) == Edges([a]) + Pairs(b.0, b.1);
    assert Edges([a]) == Pairs(a.0, a.1);
  }

  lemma LinesOfOne(e: (string, string))
    ensures Lines([e]) == EdgeLine(e.0, e.1)
  {
    assert [e][..0] == [];
  }

  lemma TestSuiteLines()
    ensures Lines([("PackageA", "PackageB"), ("PackageA", "PackageC"), ("PackageB", "PackageD")])
            == "    \"PackageA\" -> \"PackageB\";\n"
             + "    \"PackageA\" -> \"PackageC\";\n"
             + "    \"PackageB\" -> \"PackageD\";\n"
  {
    var e0, e1, e2 := ("PackageA", "PackageB"), ("PackageA", "PackageC"), ("PackageB", "PackageD");
    var es := [e0, e1, e2];
    assert es == [e0] + [e1] + [e2];
    LinesConcat([e0] + [e1], [e2]);
    LinesConcat([e0], [e1]);
    LinesOfOne(e0);
    LinesOfOne(e1);
    LinesOfOne(e2);
    assert EdgeLine(e0.0, e0.1) == "    \"PackageA\" -> \"PackageB\";\n";
    assert EdgeLine(e1.0, e1.1) == "    \"PackageA\" -> \"PackageC\";\n";
    assert EdgeLine(e2.0, e2.1) == "    \"PackageB\" -> \"PackageD\";\n";
  }

  /** The graph and the expected text of the test suite. */
  lemma TestSuiteDot()
    ensures Dot(SampleGraph())
            == "digraph Dependencies {\n"
             + "    \"PackageA\" -> \"PackageB\";\n"
             + "    \"PackageA\" -> \"PackageC\";\n"
             + "    \"PackageB\" -> \"PackageD\";\n"
             + "}"
  {
    TestSuiteEdges();
    TestSuiteLines();
  }
}
