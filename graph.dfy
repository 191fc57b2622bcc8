/**
 * build_dependency_graph of both variants: a depth-first, pre-order walk over
 * a shared insertion-ordered `graph` dict and a set `visited` of lower-cased
 * names, with a depth cutoff and a per-package `try`.
 *
 * The registry round trip of one package (versions, download, manifest) is
 * the parameter `resolve`: `Some(deps)` when every step succeeds, `None` when
 * any step raises and the `except` branch swallows the error.
 */
module Graph {
  import opened Failures
  import opened Text

  /**
   * A Python dict from package name to dependency list, in insertion order.
   * A sequence can repeat a key, which a dict cannot; `Put` never creates a
   * repeat, the walk's graphs have distinct keys (BuildGraphProperties), and
   * the DOT lemmas hold for any sequence, repeated keys included.
   */
  type Dict = seq<(string, seq<string>)>

  /** One package's resolution: its dependency list, or None when it raised. */
  type Resolver = string -> Option<seq<string>>

  predicate HasKey(g: Dict, k: string) {
    exists i | 0 <= i < |g| :: g[i].0 == k
  }

  /** `g[k] = v`: replaces the value of an existing key in place, else appends. */
  function Put(g: Dict, k: string, v: seq<string>): (r: Dict)
    ensures HasKey(g, k) ==> |r| == |g| && forall i :: 0 <= i < |g| ==> r[i].0 == g[i].0
    ensures !HasKey(g, k) ==> r == g + [(k, v)]
    ensures forall i :: 0 <= i < |r| ==> r[i] == (k, v) || (r[i].0 != k && r[i] in g)
  {
    if HasKey(g, k) then seq(|g|, i requires 0 <= i < |g| => if g[i].0 == k then (k, v) else g[i])
    else g + [(k, v)]
  }

  datatype State = State(graph: Dict, visited: set<string>)

  /** Recursion budget left at `depth`: the walk stops once `depth > maxDepth`. */
  function Fuel(maxDepth: int, depth: nat): nat {
    if depth <= maxDepth then maxDepth - depth + 1 else 0
  }

  /** One call `build_dependency_graph(name, ..., depth, graph, visited)`. */
  function Visit(resolve: Resolver, maxDepth: int, name: string, depth: nat, s: State): State
    decreases Fuel(maxDepth, depth), 0, 0
  {
    if depth > maxDepth then s
    else if Lower(name) in s.visited then s
    else
      var marked := s.visited + {Lower(name)};
      match resolve(name)
      case None => State(s.graph, marked)
      case Some(deps) => VisitAll(resolve, maxDepth, deps, depth + 1, State(Put(s.graph, name, deps), marked))
  }

  /** The `for dep in dependencies` loop: one Visit per name, in order. */
  function VisitAll(resolve: Resolver, maxDepth: int, names: seq<string>, depth: nat, s: State): State
    decreases Fuel(maxDepth, depth), 1, |names|
  {
    if names == [] then s
    else Visit(resolve, maxDepth, names[|names| - 1], depth, VisitAll(resolve, maxDepth, names[..|names| - 1], depth, s))
  }

  /** The walk from the top-level call, with a fresh dict and set. */
  function Run(resolve: Resolver, name: string, maxDepth: int): State {
    Visit(resolve, maxDepth, name, 0, State([], {}))
  }

  function BuildGraph(resolve: Resolver, name: string, maxDepth: int): Dict {
    Run(resolve, name, maxDepth).graph
  }

  // ---------------------------------------------------------------------------
  // Invariants of the walk

  /** Every key's lower-case form is in `visited`, and no two keys are equal ignoring case. */
  predicate Consistent(s: State) {
    (forall i :: 0 <= i < |s.graph| ==> Lower(s.graph[i].0) in s.visited)
    && DistinctIgnoringCase(s.graph)
  }

  predicate DistinctIgnoringCase(g: Dict) {
    forall i, j :: 0 <= i < j < |g| ==> Lower(g[i].0) != Lower(g[j].0)
  }

  /** Every entry is what its package resolved to. */
  predicate Recorded(resolve: Resolver, g: Dict) {
    forall i :: 0 <= i < |g| ==> resolve(g[i].0) == Some(g[i].1)
  }

  /** Every key after the first is a dependency of an earlier key. */
  predicate Linked(g: Dict) {
    forall j :: 0 < j < |g| ==> ListedBefore(g, j)
  }

  /** The key at position `j` is a dependency of some earlier entry. */
  predicate ListedBefore(g: Dict, j: nat)
    requires j < |g|
  {
    exists i :: 0 <= i < j && g[j].0 in g[i].1
  }

  /** `t` only adds to `s`: visited grows and the entries of `s` are kept as a prefix. */
  predicate Extends(s: State, t: State) {
    s.visited <= t.visited && |s.graph| <= |t.graph| && t.graph[..|s.graph|] == s.graph
  }

  lemma ExtendsTransitive(s: State, t: State, u: State)
    requires Extends(s, t) && Extends(t, u)
    ensures Extends(s, u)
  {
    assert u.graph[..|s.graph|] == u.graph[..|t.graph|][..|s.graph|];
  }

  /** A package not yet visited is not a key, so recording it appends. */
  lemma FreshEntry(s: State, name: string, deps: seq<string>)
    requires Consistent(s) && Lower(name) !in s.visited
    ensures Put(s.graph, name, deps) == s.graph + [(name, deps)]
    ensures Consistent(State(s.graph + [(name, deps)], s.visited + {Lower(name)}))
  {
    assert !HasKey(s.graph, name);
  }

  /**
   * A call keeps the dict and the set consistent and only adds to them:
   * earlier entries are never overwritten or reordered.
   */
  lemma {:induction false} VisitExtends(resolve: Resolver, maxDepth: int, name: string, depth: nat, s: State)
    requires Consistent(s)
    ensures Consistent(Visit(resolve, maxDepth, name, depth, s))
    ensures Extends(s, Visit(resolve, maxDepth, name, depth, s))
    decreases Fuel(maxDepth, depth), 0, 0
  {
    if depth <= maxDepth && Lower(name) !in s.visited {
      match resolve(name)
      case None =>
      case Some(deps) =>
        FreshEntry(s, name, deps);
        var s2 := State(s.graph + [(name, deps)], s.visited + {Lower(name)});
        assert s2.graph[..|s.graph|] == s.graph;
        VisitAllExtends(resolve, maxDepth, deps, depth + 1, s2);
        ExtendsTransitive(s, s2, Visit(resolve, maxDepth, name, depth, s));
    }
  }

  lemma {:induction false} VisitAllExtends(resolve: Resolver, maxDepth: int, names: seq<string>, depth: nat, s: State)
    requires Consistent(s)
    ensures Consistent(VisitAll(resolve, maxDepth, names, depth, s))
    ensures Extends(s, VisitAll(resolve, maxDepth, names, depth, s))
    decreases Fuel(maxDepth, depth), 1, |names|
  {
    if names == [] {
      assert s.graph[..|s.graph|] == s.graph;
    } else {
      var init := names[..|names| - 1];
      VisitAllExtends(resolve, maxDepth, init, depth, s);
      var mid := VisitAll(resolve, maxDepth, init, depth, s);
      VisitExtends(resolve, maxDepth, names[|names| - 1], depth, mid);
      ExtendsTransitive(s, mid, VisitAll(resolve, maxDepth, names, depth, s));
    }
  }

  /** Only packages that resolved become keys, each with its own dependency list. */
  lemma {:induction false} VisitRecorded(resolve: Resolver, maxDepth: int, name: string, depth: nat, s: State)
    requires Consistent(s) && Recorded(resolve, s.graph)
    ensures Recorded(resolve, Visit(resolve, maxDepth, name, depth, s).graph)
    decreases Fuel(maxDepth, depth), 0, 0
  {
    if depth <= maxDepth && Lower(name) !in s.visited {
      match resolve(name)
      case None =>
      case Some(deps) =>
        FreshEntry(s, name, deps);
        VisitAllRecorded(resolve, maxDepth, deps, depth + 1, State(s.graph + [(name, deps)], s.visited + {Lower(name)}));
    }
  }

  lemma {:induction false} VisitAllRecorded(resolve: Resolver, maxDepth: int, names: seq<string>, depth: nat, s: State)
    requires Consistent(s) && Recorded(resolve, s.graph)
    ensures Recorded(resolve, VisitAll(resolve, maxDepth, names, depth, s).graph)
    decreases Fuel(maxDepth, depth), 1, |names|
  {
    if names != [] {
      var init := names[..|names| - 1];
      VisitAllRecorded(resolve, maxDepth, init, depth, s);
      VisitAllExtends(resolve, maxDepth, init, depth, s);
      VisitRecorded(resolve, maxDepth, names[|names| - 1], depth, VisitAll(resolve, maxDepth, init, depth, s));
    }
  }

  /** `name` is a dependency of some recorded package. */
  predicate Anchored(g: Dict, name: string) {
    exists i :: 0 <= i < |g| && name in g[i].1
  }

  lemma AnchoredKept(s: State, t: State, name: string)
    requires Extends(s, t) && Anchored(s.graph, name)
    ensures Anchored(t.graph, name)
  {
    var i :| 0 <= i < |s.graph| && name in s.graph[i].1;
    assert t.graph[i] == t.graph[..|s.graph|][i];
  }

  lemma LinkedAppend(g: Dict, name: string, deps: seq<string>)
    requires Linked(g) && Anchored(g, name)
    ensures Linked(g + [(name, deps)])
  {
    var g2 := g + [(name, deps)];
    var k :| 0 <= k < |g| && name in g[k].1;
    forall j | 0 < j < |g2| ensures ListedBefore(g2, j) {
      if j < |g| {
        assert ListedBefore(g, j);
        var i :| 0 <= i < j && g[j].0 in g[i].1;
        assert g2[i] == g[i] && g2[j] == g[j];
      } else {
        assert g2[k] == g[k] && g2[j].0 == name;
      }
    }
  }

  /** Every package the walk records below the root was reached as a dependency of an earlier one. */
  lemma {:induction false} VisitLinked(resolve: Resolver, maxDepth: int, name: string, depth: nat, s: State)
    requires Consistent(s) && Linked(s.graph) && Anchored(s.graph, name)
    ensures Linked(Visit(resolve, maxDepth, name, depth, s).graph)
    decreases Fuel(maxDepth, depth), 0, 0
  {
    if depth <= maxDepth && Lower(name) !in s.visited {
      match resolve(name)
      case None =>
      case Some(deps) =>
        FreshEntry(s, name, deps);
        var g2 := s.graph + [(name, deps)];
        LinkedAppend(s.graph, name, deps);
        var s2 := State(g2, s.visited + {Lower(name)});
        forall d | d in deps ensures Anchored(g2, d) {
          assert g2[|s.graph|] == (name, deps);
        }
        VisitAllLinked(resolve, maxDepth, deps, depth + 1, s2);
    }
  }

  lemma {:induction false} VisitAllLinked(resolve: Resolver, maxDepth: int, names: seq<string>, depth: nat, s: State)
    requires Consistent(s) && Linked(s.graph)
    requires forall n :: n in names ==> Anchored(s.graph, n)
    ensures Linked(VisitAll(resolve, maxDepth, names, depth, s).graph)
    decreases Fuel(maxDepth, depth), 1, |names|
  {
    if names != [] {
      var init := names[..|names| - 1];
      var last := names[|names| - 1];
      VisitAllLinked(resolve, maxDepth, init, depth, s);
      VisitAllExtends(resolve, maxDepth, init, depth, s);
      var mid := VisitAll(resolve, maxDepth, init, depth, s);
      AnchoredKept(s, mid, last);
      VisitLinked(resolve, maxDepth, last, depth, mid);
    }
  }

  // ---------------------------------------------------------------------------
  // What the walk visits

  lemma {:induction false} VisitGrows(resolve: Resolver, maxDepth: int, name: string, depth: nat, s: State)
    ensures s.visited <= Visit(resolve, maxDepth, name, depth, s).visited
    decreases Fuel(maxDepth, depth), 0, 0
  {
    if depth <= maxDepth && Lower(name) !in s.visited {
      match resolve(name)
      case None =>
      case Some(deps) =>
        VisitAllGrows(resolve, maxDepth, deps, depth + 1, State(Put(s.graph, name, deps), s.visited + {Lower(name)}));
    }
  }

  lemma {:induction false} VisitAllGrows(resolve: Resolver, maxDepth: int, names: seq<string>, depth: nat, s: State)
    ensures s.visited <= VisitAll(resolve, maxDepth, names, depth, s).visited
    decreases Fuel(maxDepth, depth), 1, |names|
  {
    if names != [] {
      var init := names[..|names| - 1];
      VisitAllGrows(resolve, maxDepth, init, depth, s);
      VisitGrows(resolve, maxDepth, names[|names| - 1], depth, VisitAll(resolve, maxDepth, init, depth, s));
    }
  }

  /** A package reached within the depth bound ends up in `visited`, whether or not it resolved. */
  lemma VisitMarks(resolve: Resolver, maxDepth: int, name: string, depth: nat, s: State)
    requires depth <= maxDepth
    ensures Lower(name) in Visit(resolve, maxDepth, name, depth, s).visited
  {
    if Lower(name) !in s.visited {
      match resolve(name)
      case None =>
      case Some(deps) =>
        VisitAllGrows(resolve, maxDepth, deps, depth + 1, State(Put(s.graph, name, deps), s.visited + {Lower(name)}));
    }
  }

  lemma {:induction false} VisitAllMarks(resolve: Resolver, maxDepth: int, names: seq<string>, depth: nat, s: State)
    requires depth <= maxDepth
    ensures forall n :: n in names ==> Lower(n) in VisitAll(resolve, maxDepth, names, depth, s).visited
    decreases |names|
  {
    if names != [] {
      var init := names[..|names| - 1];
      var last := names[|names| - 1];
      var mid := VisitAll(resolve, maxDepth, init, depth, s);
      VisitAllMarks(resolve, maxDepth, init, depth, s);
      VisitGrows(resolve, maxDepth, last, depth, mid);
      VisitMarks(resolve, maxDepth, last, depth, mid);
      assert forall n :: n in names ==> n in init || n == last;
    }
  }

  /** Dependencies met beyond the depth bound are not looked at: nothing changes. */
  lemma {:induction false} BeyondDepthUnchanged(resolve: Resolver, maxDepth: int, names: seq<string>, depth: nat, s: State)
    requires depth > maxDepth
    ensures VisitAll(resolve, maxDepth, names, depth, s) == s
    decreases |names|
  {
    if names != [] {
      BeyondDepthUnchanged(resolve, maxDepth, names[..|names| - 1], depth, s);
    }
  }

  /**
   * A name already met earlier in the same dependency list, in any case, is
   * skipped the second time: the list behaves as if it were not repeated.
   */
  lemma RepeatedNameSkipped(resolve: Resolver, maxDepth: int, names: seq<string>, x: string, depth: nat, s: State)
    requires exists y :: y in names && Lower(y) == Lower(x)
    ensures VisitAll(resolve, maxDepth, names + [x], depth, s) == VisitAll(resolve, maxDepth, names, depth, s)
  {
    assert (names + [x])[..|names|] == names;
    if depth <= maxDepth {
      VisitAllMarks(resolve, maxDepth, names, depth, s);
    }
  }

  /** The top-level call on a root that resolves: the root is recorded first, then its dependencies are walked. */
  lemma RootStep(resolve: Resolver, name: string, maxDepth: int)
    requires 0 <= maxDepth && resolve(name).Some?
    ensures Run(resolve, name, maxDepth)
            == VisitAll(resolve, maxDepth, resolve(name).value, 1, State([(name, resolve(name).value)], {Lower(name)}))
  {
    var deps := resolve(name).value;
    var s0 := State([], {});
    assert Lower(name) !in s0.visited;
    assert Put(s0.graph, name, deps) == [(name, deps)];
    assert s0.visited + {Lower(name)} == {Lower(name)};
  }

  /** Properties of the graph a top-level call returns. */
  lemma BuildGraphProperties(resolve: Resolver, name: string, maxDepth: int)
    ensures var g := BuildGraph(resolve, name, maxDepth);
      && DistinctIgnoringCase(g)
      && Recorded(resolve, g)
      && Linked(g)
      && (g != [] <==> maxDepth >= 0 && resolve(name).Some?)
      && (g != [] ==> g[0] == (name, resolve(name).value))
  {
    var s0 := State([], {});
    if 0 <= maxDepth && resolve(name).Some? {
      var deps := resolve(name).value;
      var s2 := State([(name, deps)], {Lower(name)});
      assert Put([], name, deps) == [(name, deps)];
      RootStep(resolve, name, maxDepth);
      VisitAllExtends(resolve, maxDepth, deps, 1, s2);
      VisitAllRecorded(resolve, maxDepth, deps, 1, s2);
      forall d | d in deps ensures Anchored(s2.graph, d) {
        assert s2.graph[0] == (name, deps);
      }
      VisitAllLinked(resolve, maxDepth, deps, 1, s2);
      assert BuildGraph(resolve, name, maxDepth)[..1] == s2.graph;
    }
  }

  /** With a depth bound of 0 only the root is resolved. */
  lemma DepthZeroOnlyRoot(resolve: Resolver, name: string)
    ensures BuildGraph(resolve, name, 0) == if resolve(name).Some? then [(name, resolve(name).value)] else []
  {
    if resolve(name).Some? {
      var deps := resolve(name).value;
      assert Put([], name, deps) == [(name, deps)];
      RootStep(resolve, name, 0);
      BeyondDepthUnchanged(resolve, 0, deps, 1, State([(name, deps)], {Lower(name)}));
    }
  }

  /** Below the depth bound, every dependency of the root is visited. */
  lemma RootDependenciesVisited(resolve: Resolver, name: string, maxDepth: int)
    requires maxDepth >= 1 && resolve(name).Some?
    ensures forall d :: d in resolve(name).value ==> Lower(d) in Run(resolve, name, maxDepth).visited
  {
    var deps := resolve(name).value;
    RootStep(resolve, name, maxDepth);
    VisitAllMarks(resolve, maxDepth, deps, 1, State([(name, deps)], {Lower(name)}));
  }

  // ---------------------------------------------------------------------------
  // The recursive procedure over a shared dict and set

  /** The `graph` and `visited` objects that all recursive calls share. */
  class Builder {
    const resolve: Resolver
    const maxDepth: int
    var graph: Dict
    var visited: set<string>

    constructor (resolve: Resolver, maxDepth: int)
      ensures this.resolve == resolve && this.maxDepth == maxDepth
      ensures graph == [] && visited == {}
    {
      this.resolve := resolve;
      this.maxDepth := maxDepth;
      graph := [];
      visited := {};
    }

    function Snapshot(): State
      reads this
    {
      State(graph, visited)
    }

    /** `build_dependency_graph(name, ..., depth, graph, visited)`. */
    method Build(name: string, depth: nat)
      modifies this
      ensures Snapshot() == Visit(resolve, maxDepth, name, depth, old(Snapshot()))
      decreases Fuel(maxDepth, depth), 1
    {
      if depth > maxDepth {
        return;
      }
      if Lower(name) in visited {
        return;
      }
      visited := visited + {Lower(name)};
      var resolved := resolve(name);
      if resolved.Some? {
        var deps := resolved.value;
        graph := Put(graph, name, deps);
        BuildAll(deps, depth + 1);
      }
    }

    /** The `for dep in dependencies` loop of one call. */
    method BuildAll(deps: seq<string>, depth: nat)
      modifies this
      ensures Snapshot() == VisitAll(resolve, maxDepth, deps, depth, old(Snapshot()))
      decreases Fuel(maxDepth, depth), 2
    {
      ghost var start := Snapshot();
      for i := 0 to |deps|
        invariant Snapshot() == VisitAll(resolve, maxDepth, deps[..i], depth, start)
      {
        assert deps[..i + 1][..i] == deps[..i];
        Build(deps[i], depth);
      }
      assert deps[..|deps|] == deps;
    }
  }

  /** The top-level call: a fresh dict and set, depth 0. */
  method BuildDependencyGraph(resolve: Resolver, name: string, maxDepth: int) returns (graph: Dict)
    ensures graph == BuildGraph(resolve, name, maxDepth)
    ensures DistinctIgnoringCase(graph) && Recorded(resolve, graph) && Linked(graph)
    ensures graph != [] <==> maxDepth >= 0 && resolve(name).Some?
    ensures graph != [] ==> graph[0] == (name, resolve(name).value)
  {
    var builder := new Builder(resolve, maxDepth);
    builder.Build(name, 0);
    graph := builder.graph;
    BuildGraphProperties(resolve, name, maxDepth);
  }
}
