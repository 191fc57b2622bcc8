/** Concrete walks of build_dependency_graph, with the registry given by the facts each lemma requires. */
module GraphExamples {
  import opened Failures
  import opened Text
  import opened Graph

  /** Two names whose lower-case forms differ at some position are different packages to the walk. */
  lemma LowerDiffers(a: string, b: string, i: nat)
    requires i < |a| && i < |b| && LowerChar(a[i]) != LowerChar(b[i])
    ensures Lower(a) != Lower(b)
  {
    assert Lower(a)[i] != Lower(b)[i];
  }

  /** A call on a package not yet visited and within the bound records it and walks its dependencies. */
  lemma VisitFresh(resolve: Resolver, maxDepth: int, name: string, depth: nat, s: State, deps: seq<string>)
    requires depth <= maxDepth && Lower(name) !in s.visited && resolve(name) == Some(deps)
    ensures Visit(resolve, maxDepth, name, depth, s)
            == VisitAll(resolve, maxDepth, deps, depth + 1, State(Put(s.graph, name, deps), s.visited + {Lower(name)}))
  {
  }

  lemma VisitTwo(resolve: Resolver, maxDepth: int, a: string, b: string, depth: nat, s: State)
    ensures VisitAll(resolve, maxDepth, [a, b], depth, s)
            == Visit(resolve, maxDepth, b, depth, Visit(resolve, maxDepth, a, depth, s))
  {
    assert [a, b][..1] == [a];
    VisitOne(resolve, maxDepth, a, depth, s);
  }

  lemma VisitOne(resolve: Resolver, maxDepth: int, a: string, depth: nat, s: State)
    ensures VisitAll(resolve, maxDepth, [a], depth, s) == Visit(resolve, maxDepth, a, depth, s)
  {
    assert [a][..0] == [];
  }

  /**
   * The graph of the test suite, depth bound 2: TestPackage depends on DepA
   * and DepB, DepA on DepC. Entries appear in depth-first pre-order.
   */
  lemma TestSuiteGraph(resolve: Resolver)
    requires resolve("TestPackage") == Some(["DepA", "DepB"])
    requires resolve("DepA") == Some(["DepC"])
    requires resolve("DepB") == Some([]) && resolve("DepC") == Some([])
    ensures BuildGraph(resolve, "TestPackage", 2)
            == [("TestPackage", ["DepA", "DepB"]), ("DepA", ["DepC"]), ("DepC", []), ("DepB", [])]
  {
    var tp, a, b, c := "TestPackage", "DepA", "DepB", "DepC";
    LowerDiffers(a, tp, 0);
    LowerDiffers(b, tp, 0);
    LowerDiffers(c, tp, 0);
    LowerDiffers(c, a, 3);
    LowerDiffers(b, a, 3);
    LowerDiffers(b, c, 3);
    RootStep(resolve, tp, 2);
    var s1 := State([(tp, [a, b])], {Lower(tp)});
    VisitTwo(resolve, 2, a, b, 1, s1);
    VisitFresh(resolve, 2, a, 1, s1, [c]);
    var s2 := State([(tp, [a, b]), (a, [c])], {Lower(tp), Lower(a)});
    assert Put(s1.graph, a, [c]) == s2.graph;
    VisitOne(resolve, 2, c, 2, s2);
    VisitFresh(resolve, 2, c, 2, s2, []);
    var s3 := State(s2.graph + [(c, [])], s2.visited + {Lower(c)});
    assert Put(s2.graph, c, []) == s3.graph;
    VisitFresh(resolve, 2, b, 1, s3, []);
    assert Put(s3.graph, b, []) == s3.graph + [(b, [])];
  }

  /** A cycle A -> B -> A ends when the walk comes back to A, well within the bound. */
  lemma CycleVisitedOnce(resolve: Resolver)
    requires resolve("A") == Some(["B"]) && resolve("B") == Some(["A"])
    ensures BuildGraph(resolve, "A", 5) == [("A", ["B"]), ("B", ["A"])]
  {
    LowerDiffers("A", "B", 0);
    RootStep(resolve, "A", 5);
    var s1 := State([("A", ["B"])], {Lower("A")});
    VisitOne(resolve, 5, "B", 1, s1);
    VisitFresh(resolve, 5, "B", 1, s1, ["A"]);
    var s2 := State([("A", ["B"]), ("B", ["A"])], {Lower("A"), Lower("B")});
    assert Put(s1.graph, "B", ["A"]) == s2.graph;
    VisitOne(resolve, 5, "A", 2, s2);
  }

  /**
   * The walk is depth-first with one shared `visited` set, so a package first
   * met along a long path is not walked again along a shorter one: here D is
   * two steps from A (through C) yet is never resolved, because C was first
   * reached at the bound, through B.
   */
  lemma ShorterPathNotRevisited(resolve: Resolver)
    requires resolve("A") == Some(["B", "C"]) && resolve("B") == Some(["C"])
    requires resolve("C") == Some(["D"]) && resolve("D") == Some([])
    ensures BuildGraph(resolve, "A", 2) == [("A", ["B", "C"]), ("B", ["C"]), ("C", ["D"])]
  {
    LowerDiffers("A", "B", 0);
    LowerDiffers("A", "C", 0);
    LowerDiffers("B", "C", 0);
    RootStep(resolve, "A", 2);
    var s1 := State([("A", ["B", "C"])], {Lower("A")});
    VisitTwo(resolve, 2, "B", "C", 1, s1);
    VisitFresh(resolve, 2, "B", 1, s1, ["C"]);
    var s2 := State([("A", ["B", "C"]), ("B", ["C"])], {Lower("A"), Lower("B")});
    assert Put(s1.graph, "B", ["C"]) == s2.graph;
    VisitOne(resolve, 2, "C", 2, s2);
    VisitFresh(resolve, 2, "C", 2, s2, ["D"]);
    var s3 := State(s2.graph + [("C", ["D"])], s2.visited + {Lower("C")});
    assert Put(s2.graph, "C", ["D"]) == s3.graph;
    VisitOne(resolve, 2, "D", 3, s3);
  }

  /** A package whose resolution fails is marked visited but never recorded, and the walk goes on with its siblings. */
  lemma FailedSiblingIsolated(resolve: Resolver)
    requires resolve("Root") == Some(["Bad", "Good"])
    requires resolve("Bad") == None && resolve("Good") == Some([])
    ensures Run(resolve, "Root", 1)
            == State([("Root", ["Bad", "Good"]), ("Good", [])], {Lower("Root"), Lower("Bad"), Lower("Good")})
  {
    LowerDiffers("Root", "Bad", 0);
    LowerDiffers("Root", "Good", 0);
    LowerDiffers("Bad", "Good", 0);
    RootStep(resolve, "Root", 1);
    var s1 := State([("Root", ["Bad", "Good"])], {Lower("Root")});
    VisitTwo(resolve, 1, "Bad", "Good", 1, s1);
    var s2 := State(s1.graph, {Lower("Root"), Lower("Bad")});
    assert Visit(resolve, 1, "Bad", 1, s1) == s2;
    VisitFresh(resolve, 1, "Good", 1, s2, []);
    assert Put(s2.graph, "Good", []) == s2.graph + [("Good", [])];
  }
}
