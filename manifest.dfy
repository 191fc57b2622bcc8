/**
 * Dependency extraction from a package archive, in both variants.
 *
 * An archive is the list of its entries in listing order; each entry's content
 * is already parsed as XML (or failed to parse). An element carries its tag as
 * ElementTree writes it, `{namespace}local` when namespaced, its attributes
 * and its children in document order.
 */
module Manifest {
  import opened Failures
  import opened Text

  datatype Element = Element(tag: string, attrib: map<string, string>, children: seq<Element>)

  /** An archive entry: its name, and its content parsed as XML (None: not well-formed). */
  datatype ArchiveEntry = ArchiveEntry(name: string, document: Option<Element>)

  type Archive = seq<ArchiveEntry>

  const NuspecSuffix := ".nuspec"

  predicate Distinct<T(==)>(xs: seq<T>) {
    forall i, j :: 0 <= i < j < |xs| ==> xs[i] != xs[j]
  }

  // ---------------------------------------------------------------------------
  // Locating the manifest

  /** Entry `i` is the first whose name ends in ".nuspec". */
  predicate IsFirstNuspec(archive: Archive, i: int) {
    && 0 <= i < |archive| && EndsWith(archive[i].name, NuspecSuffix)
    && forall j :: 0 <= j < i ==> !EndsWith(archive[j].name, NuspecSuffix)
  }

  /** Entry `k` is the last named `name`. */
  predicate IsLastNamed(archive: Archive, name: string, k: int) {
    && 0 <= k < |archive| && archive[k].name == name
    && forall j :: k < j < |archive| ==> archive[j].name != name
  }

  /** The position of the first entry whose name ends in ".nuspec", or `|archive|` when there is none. */
  function FirstNuspec(archive: Archive): (k: nat)
    ensures k <= |archive|
    ensures forall j :: 0 <= j < k ==> !EndsWith(archive[j].name, NuspecSuffix)
    ensures k < |archive| ==> IsFirstNuspec(archive, k)
    ensures forall i :: IsFirstNuspec(archive, i) ==> i == k
  {
    if archive == [] then 0
    else if EndsWith(archive[0].name, NuspecSuffix) then 0
    else
      var k := 1 + FirstNuspec(archive[1..]);
      assert forall j :: 1 <= j < |archive| ==> archive[j] == archive[1..][j - 1];
      assert forall i :: IsFirstNuspec(archive, i) ==> i > 0 && IsFirstNuspec(archive[1..], i - 1);
      k
  }

  /**
   * The entry `ZipFile.read(name)` returns: the LAST entry carrying `name`
   * (its name table keeps the last of repeated names), or `|archive|` when
   * no entry carries it.
   */
  function LastNamed(archive: Archive, name: string): (k: nat)
    ensures k <= |archive|
    ensures k < |archive| ==> IsLastNamed(archive, name, k)
    ensures k == |archive| ==> forall j :: 0 <= j < |archive| ==> archive[j].name != name
    ensures forall m :: IsLastNamed(archive, name, m) ==> m == k
  {
    if archive == [] then 0
    else if archive[|archive| - 1].name == name then |archive| - 1
    else
      var init := archive[..|archive| - 1];
      var k := LastNamed(init, name);
      assert forall m :: IsLastNamed(archive, name, m) ==> m < |init| && IsLastNamed(init, name, m);
      if k == |init| then |archive| else k
  }

  /**
   * The manifest of an archive: the name of the first entry ending in
   * ".nuspec" is read back by name, which yields the last entry of that name,
   * parsed. ManifestMissing when no name ends in ".nuspec", MalformedManifest
   * when the entry read is not well-formed XML.
   */
  function NuspecRoot(archive: Archive): (r: Result<Element>)
    ensures r == Err(ManifestMissing) <==> forall i :: 0 <= i < |archive| ==> !EndsWith(archive[i].name, NuspecSuffix)
    ensures r.Ok? ==> exists k :: 0 <= k < |archive| && EndsWith(archive[k].name, NuspecSuffix)
                                  && archive[k].document == Some(r.value)
    ensures forall i, k :: IsFirstNuspec(archive, i) && IsLastNamed(archive, archive[i].name, k)
                           ==> r == Need(archive[k].document, MalformedManifest)
  {
    var first := FirstNuspec(archive);
    if first == |archive| then Err(ManifestMissing)
    else
      var k := LastNamed(archive, archive[first].name);
      assert archive[k].name == archive[first].name;
      match archive[k].document
      case None => Err(MalformedManifest)
      case Some(root) => assert 0 <= k < |archive| && EndsWith(archive[k].name, NuspecSuffix); Ok(root)
  }

  /** Two entries named "a.nuspec": the second one is read, whether or not it parses. */
  lemma RepeatedNuspecReadsLast(first: Option<Element>, second: Element)
    ensures NuspecRoot([ArchiveEntry("a.nuspec", first), ArchiveEntry("a.nuspec", Some(second))]) == Ok(second)
    ensures NuspecRoot([ArchiveEntry("a.nuspec", first), ArchiveEntry("a.nuspec", None)]) == Err(MalformedManifest)
  {
  }

  // ---------------------------------------------------------------------------
  // Namespaces and ElementTree lookups

  /** The namespace dependency_visualizer.py reads off a root tag of the form `{ns}name`: the text before the first '}', with '{' stripped; empty otherwise. */
  function NamespaceOf(rootTag: string): string {
    if StartsWith(rootTag, "{") then Strip(BeforeFirst(rootTag, '}'), '{') else ""
  }

  /** The tag that `find('ns:local', {'ns': ns})` looks for, or plain `local` when there is no namespace. */
  function Qualify(ns: string, local: string): string {
    if ns == "" then local else "{" + ns + "}" + local
  }

  /** A namespace as it can appear between the braces of a tag. */
  predicate WellFormedNamespace(ns: string) {
    ns != [] && '}' !in ns && ns[0] != '{' && ns[|ns| - 1] != '{'
  }

  /** Detecting the namespace of a root written as `{ns}local` gives back `ns`. */
  lemma {:induction false} NamespaceOfQualified(ns: string, local: string)
    requires WellFormedNamespace(ns)
    ensures NamespaceOf(Qualify(ns, local)) == ns
  {
    var tag := "{" + ns + "}" + local;
    assert StartsWith(tag, "{");
    BeforeFirstAt("{" + ns, "}" + local, '}');
    assert tag == ("{" + ns) + ("}" + local);
    assert Qualify(ns, local) == tag;
    assert ("{" + ns)[1..] == ns;
    assert Strip(ns, '{') == ns;
    assert Strip("{" + ns, '{') == Strip(ns, '{');
  }

  lemma {:induction false} BeforeFirstAt(a: string, b: string, c: char)
    requires c !in a && |b| > 0 && b[0] == c
    ensures BeforeFirst(a + b, c) == a
    decreases |a|
  {
    if a != [] {
      assert (a + b)[1..] == a[1..] + b;
      BeforeFirstAt(a[1..], b, c);
    }
  }

  /** The children of `e` with the given tag, in document order (`findall`). */
  function Matching(children: seq<Element>, tag: string): (r: seq<Element>)
    ensures forall x :: x in r <==> x in children && x.tag == tag
  {
    if children == [] then []
    else (if children[0].tag == tag then [children[0]] else []) + Matching(children[1..], tag)
  }

  /** A single child is kept exactly when its tag matches. */
  lemma MatchingSingle(x: Element, tag: string)
    ensures Matching([x], tag) == if x.tag == tag then [x] else []
  {
    assert [x][1..] == [];
  }

  /**
   * `findall` distributes over a split of the children: with MatchingSingle
   * this fixes the document order and keeps every repeated match.
   */
  lemma {:induction false} MatchingConcat(a: seq<Element>, b: seq<Element>, tag: string)
    ensures Matching(a + b, tag) == Matching(a, tag) + Matching(b, tag)
  {
    if a == [] {
      assert a + b == b;
    } else {
      assert (a + b)[0] == a[0];
      assert (a + b)[1..] == a[1..] + b;
      MatchingConcat(a[1..], b, tag);
    }
  }

  function FindAll(e: Element, tag: string): seq<Element> {
    Matching(e.children, tag)
  }

  /** The first child with the given tag (`find`). */
  function Find(e: Element, tag: string): Option<Element> {
    var all := FindAll(e, tag);
    if all == [] then None else Some(all[0])
  }

  // ---------------------------------------------------------------------------
  // The dependency elements

  /** The `dependency` children of every group, group after group. */
  function GroupMembers(groups: seq<Element>, depTag: string): seq<Element> {
    if groups == [] then []
    else GroupMembers(groups[..|groups| - 1], depTag) + Matching(groups[|groups| - 1].children, depTag)
  }

  /** The `dependency` elements both variants visit: grouped ones first, then ungrouped ones. */
  function DependencyElements(node: Element, ns: string): seq<Element> {
    GroupMembers(FindAll(node, Qualify(ns, "group")), Qualify(ns, "dependency"))
    + FindAll(node, Qualify(ns, "dependency"))
  }

  /** The `dependencies` element under `metadata`, if any; ManifestInvalid without `metadata`. */
  function DependenciesNode(root: Element, ns: string): Result<Option<Element>> {
    match Find(root, Qualify(ns, "metadata"))
    case None => Err(ManifestInvalid)
    case Some(metadata) => Ok(Find(metadata, Qualify(ns, "dependencies")))
  }

  lemma NextGroup(groups: seq<Element>, i: nat, depTag: string)
    requires i < |groups|
    ensures GroupMembers(groups[..i + 1], depTag) == GroupMembers(groups[..i], depTag) + FindAll(groups[i], depTag)
  {
    assert groups[..i + 1] == groups[..i] + [groups[i]];
    GroupMembersAppend(groups[..i], groups[i], depTag);
  }

  lemma GroupMembersAppend(groups: seq<Element>, g: Element, depTag: string)
    ensures GroupMembers(groups + [g], depTag) == GroupMembers(groups, depTag) + Matching(g.children, depTag)
  {
    assert (groups + [g])[..|groups|] == groups;
  }

  /** An element is a group member exactly when it is a matching child of one of the groups. */
  lemma {:induction false} GroupMembersAre(groups: seq<Element>, depTag: string, e: Element)
    ensures e in GroupMembers(groups, depTag) <==> exists g :: g in groups && e in g.children && e.tag == depTag
  {
    if groups != [] {
      var init := groups[..|groups| - 1];
      assert groups == init + [groups[|groups| - 1]];
      GroupMembersAre(init, depTag, e);
    }
  }

  /** The members of a prefix of the groups come first among the members of all groups. */
  lemma {:induction false} GroupMembersPrefix(groups: seq<Element>, k: nat, depTag: string)
    requires k <= |groups|
    ensures GroupMembers(groups[..k], depTag) <= GroupMembers(groups, depTag)
    decreases |groups| - k
  {
    if k < |groups| {
      GroupMembersPrefix(groups, k + 1, depTag);
      assert groups[..k + 1][..k] == groups[..k];
    } else {
      assert groups[..k] == groups;
    }
  }

  // ---------------------------------------------------------------------------
  // dependency_visualizer.py: a set of non-empty ids, namespace-aware

  predicate HasUsableId(e: Element) {
    "id" in e.attrib && e.attrib["id"] != ""
  }

  /** The non-empty `id`s of the elements, as `dependencies.add` collects them. */
  function IdSet(es: seq<Element>): set<string> {
    if es == [] then {}
    else
      var last := es[|es| - 1];
      IdSet(es[..|es| - 1]) + (if HasUsableId(last) then {last.attrib["id"]} else {})
  }

  lemma IdSetAppend(es: seq<Element>, e: Element)
    ensures IdSet(es + [e]) == IdSet(es) + (if HasUsableId(e) then {e.attrib["id"]} else {})
  {
    assert (es + [e])[..|es|] == es;
  }

  lemma {:induction false} IdSetMembers(es: seq<Element>, x: string)
    ensures x in IdSet(es) <==> exists e :: e in es && HasUsableId(e) && e.attrib["id"] == x
  {
    if es != [] {
      var init := es[..|es| - 1];
      assert es == init + [es[|es| - 1]];
      IdSetMembers(init, x);
    }
  }

  /** What `extract_dependencies` of dependency_visualizer.py collects, as a set. */
  function DependencySet(archive: Archive): Result<set<string>> {
    var root :- NuspecRoot(archive);
    var ns := NamespaceOf(root.tag);
    var node :- DependenciesNode(root, ns);
    match node
    case None => Ok({})
    case Some(deps) => Ok(IdSet(DependencyElements(deps, ns)))
  }

  /**
   * The collected set holds exactly the non-empty `id`s of the `dependency`
   * elements directly under `dependencies` or under one of its `group` children.
   */
  lemma DependencySetMembers(deps: Element, ns: string, x: string)
    ensures x in IdSet(DependencyElements(deps, ns)) <==>
              x != "" &&
              ((exists g, d :: g in FindAll(deps, Qualify(ns, "group")) && d in FindAll(g, Qualify(ns, "dependency"))
                               && "id" in d.attrib && d.attrib["id"] == x)
               || (exists d :: d in FindAll(deps, Qualify(ns, "dependency")) && "id" in d.attrib && d.attrib["id"] == x))
  {
    var groups := FindAll(deps, Qualify(ns, "group"));
    var depTag := Qualify(ns, "dependency");
    var grouped := GroupMembers(groups, depTag);
    var direct := FindAll(deps, depTag);
    IdSetMembers(grouped + direct, x);
    forall e ensures e in grouped <==> exists g :: g in groups && e in FindAll(g, depTag) {
      GroupMembersAre(groups, depTag, e);
    }
  }

  /** `list(dependencies)`: every element of the set once, in an order the set chooses. */
  method ListOfSet(s: set<string>) returns (xs: seq<string>)
    ensures forall x :: x in xs <==> x in s
    ensures Distinct(xs)
  {
    xs := [];
    var rest := s;
    while rest != {}
      invariant rest <= s
      invariant forall x :: x in s <==> x in xs || x in rest
      invariant forall x :: x in xs ==> x !in rest
      invariant Distinct(xs)
      decreases |rest|
    {
      var x :| x in rest;
      xs := xs + [x];
      rest := rest - {x};
    }
  }

  lemma {:induction false} IdSetConcat(a: seq<Element>, b: seq<Element>)
    ensures IdSet(a + b) == IdSet(a) + IdSet(b)
    decreases |b|
  {
    if b == [] {
      assert a + b == a;
    } else {
      var init := b[..|b| - 1];
      assert a + b == (a + init) + [b[|b| - 1]];
      assert b == init + [b[|b| - 1]];
      IdSetAppend(a + init, b[|b| - 1]);
      IdSetAppend(init, b[|b| - 1]);
      IdSetConcat(a, init);
    }
  }

  /** One `for dep in deps` loop of dependency_visualizer.py: adds the non-empty ids. */
  method AddIds(dependencies: set<string>, deps: seq<Element>) returns (result: set<string>)
    ensures result == dependencies + IdSet(deps)
  {
    result := dependencies;
    for j := 0 to |deps|
      invariant result == dependencies + IdSet(deps[..j])
    {
      var dep := deps[j];
      assert deps[..j + 1] == deps[..j] + [dep];
      IdSetAppend(deps[..j], dep);
      if "id" in dep.attrib && dep.attrib["id"] != "" {
        result := result + {dep.attrib["id"]};
      }
    }
    assert deps[..|deps|] == deps;
  }

  /** The two loops over the `dependencies` element: every group's members, then the ungrouped ones. */
  method CollectIds(node: Element, ns: string) returns (dependencies: set<string>)
    ensures dependencies == IdSet(DependencyElements(node, ns))
  {
    dependencies := {};
    var depTag := Qualify(ns, "dependency");
    var groups := FindAll(node, Qualify(ns, "group"));
    for i := 0 to |groups|
      invariant dependencies == IdSet(GroupMembers(groups[..i], depTag))
    {
      dependencies := AddIds(dependencies, FindAll(groups[i], depTag));
      NextGroup(groups, i, depTag);
      IdSetConcat(GroupMembers(groups[..i], depTag), FindAll(groups[i], depTag));
    }
    assert groups[..|groups|] == groups;
    dependencies := AddIds(dependencies, FindAll(node, depTag));
    IdSetConcat(GroupMembers(groups, depTag), FindAll(node, depTag));
  }

  /**
   * dependency_visualizer.py `extract_dependencies`: the same failures as
   * `DependencySet`, and on success a duplicate-free list of exactly its members.
   */
  method ExtractDependenciesSet(archive: Archive) returns (r: Result<seq<string>>)
    ensures r.Err? <==> DependencySet(archive).Err?
    ensures r.Err? ==> r.error == DependencySet(archive).error
    ensures r.Ok? ==> Distinct(r.value) && forall x :: x in r.value <==> x in DependencySet(archive).value
  {
    var found := NuspecRoot(archive);
    if found.Err? {
      return Err(found.error);
    }
    var root := found.value;
    var ns := NamespaceOf(root.tag);
    var metadata := Find(root, Qualify(ns, "metadata"));
    if metadata.None? {
      return Err(ManifestInvalid);
    }
    var dependencies: set<string> := {};
    var node := Find(metadata.value, Qualify(ns, "dependencies"));
    if node.Some? {
      dependencies := CollectIds(node.value, ns);
    }
    var list := ListOfSet(dependencies);
    r := Ok(list);
  }

  // ---------------------------------------------------------------------------
  // main.py: an ordered list, duplicates kept, every dependency must have an id

  /** The `id`s in order, or MissingId when some element has none (the KeyError). */
  function IdList(es: seq<Element>): Result<seq<string>> {
    if es == [] then Ok([])
    else
      var init :- IdList(es[..|es| - 1]);
      var last := es[|es| - 1];
      if "id" in last.attrib then Ok(init + [last.attrib["id"]]) else Err(MissingId)
  }

  lemma IdListAppend(es: seq<Element>, e: Element)
    ensures IdList(es + [e]) == if IdList(es).Err? then IdList(es)
                                else if "id" in e.attrib then Ok(IdList(es).value + [e.attrib["id"]])
                                else Err(MissingId)
  {
    assert (es + [e])[..|es|] == es;
  }

  /**
   * The list has one entry per element, each that element's `id`, exactly
   * when every element has an `id`; otherwise MissingId.
   */
  lemma {:induction false} IdListIsIds(es: seq<Element>)
    ensures IdList(es).Ok? <==> forall e :: e in es ==> "id" in e.attrib
    ensures IdList(es).Err? ==> IdList(es).error == MissingId
    ensures IdList(es).Ok? ==> |IdList(es).value| == |es|
                               && forall i :: 0 <= i < |es| ==> IdList(es).value[i] == es[i].attrib["id"]
  {
    if es != [] {
      var init := es[..|es| - 1];
      assert es == init + [es[|es| - 1]];
      IdListIsIds(init);
    }
  }

  /** A missing `id` anywhere in a prefix makes the whole list fail. */
  lemma {:induction false} IdListPrefixFails(es: seq<Element>, k: nat)
    requires k <= |es| && IdList(es[..k]).Err?
    ensures IdList(es).Err?
    decreases |es| - k
  {
    if k < |es| {
      assert es[..k + 1] == es[..k] + [es[k]];
      IdListAppend(es[..k], es[k]);
      IdListPrefixFails(es, k + 1);
    } else {
      assert es[..k] == es;
    }
  }

  /** What `extract_dependencies` of main.py returns: no namespace handling at all. */
  function OrderedDependencies(archive: Archive): Result<seq<string>> {
    var root :- NuspecRoot(archive);
    var node :- DependenciesNode(root, "");
    match node
    case None => Ok([])
    case Some(deps) => IdList(DependencyElements(deps, ""))
  }

  /** One `for dep in ...` loop of main.py: appends each id, raising on the first one missing. */
  method AppendIds(dependencies: seq<string>, deps: seq<Element>) returns (r: Result<seq<string>>)
    ensures IdList(deps).Err? ==> r == Err(MissingId)
    ensures IdList(deps).Ok? ==> r == Ok(dependencies + IdList(deps).value)
  {
    var result := dependencies;
    for j := 0 to |deps|
      invariant IdList(deps[..j]).Ok? && result == dependencies + IdList(deps[..j]).value
    {
      var dep := deps[j];
      assert deps[..j + 1] == deps[..j] + [dep];
      IdListAppend(deps[..j], dep);
      if "id" !in dep.attrib {
        IdListPrefixFails(deps, j + 1);
        IdListIsIds(deps);
        return Err(MissingId);
      }
      result := result + [dep.attrib["id"]];
    }
    assert deps[..|deps|] == deps;
    r := Ok(result);
  }

  lemma IdListConcat(a: seq<Element>, b: seq<Element>)
    ensures IdList(a + b) == if IdList(a).Err? then IdList(a)
                             else if IdList(b).Err? then IdList(b)
                             else Ok(IdList(a).value + IdList(b).value)
  {
    IdListIsIds(a);
    IdListIsIds(b);
    IdListIsIds(a + b);
    if IdList(a).Ok? && IdList(b).Ok? {
      forall e | e in a + b ensures "id" in e.attrib {
        assert e in a || e in b;
      }
      var x, y, z := IdList(a).value, IdList(b).value, IdList(a + b).value;
      forall i | 0 <= i < |z| ensures z[i] == (x + y)[i] {
        if i < |a| {
          assert (a + b)[i] == a[i];
        } else {
          assert (a + b)[i] == b[i - |a|];
        }
      }
      assert z == x + y;
    } else if IdList(a).Err? {
      var e :| e in a && "id" !in e.attrib;
      assert e in a + b;
      assert IdList(a + b) == Err(MissingId);
    } else {
      var e :| e in b && "id" !in e.attrib;
      assert e in a + b;
      assert IdList(a + b) == Err(MissingId);
    }
  }

  /** A group member without an `id` makes main.py's whole extraction fail. */
  lemma GroupFailureFails(node: Element, groups: seq<Element>, k: nat)
    requires groups == FindAll(node, "group")
    requires k <= |groups| && IdList(GroupMembers(groups[..k], "dependency")).Err?
    ensures IdList(DependencyElements(node, "")) == Err(MissingId)
  {
    var done := GroupMembers(groups[..k], "dependency");
    var all := DependencyElements(node, "");
    assert all == GroupMembers(groups, "dependency") + FindAll(node, "dependency");
    assert done <= all by {
      GroupMembersPrefix(groups, k, "dependency");
    }
    assert all[..|done|] == done;
    IdListPrefixFails(all, |done|);
    IdListIsIds(all);
  }

  /** The two loops of main.py over the `dependencies` element, grouped members first. */
  method CollectIdList(node: Element) returns (r: Result<seq<string>>)
    ensures r == IdList(DependencyElements(node, ""))
  {
    var dependencies: seq<string> := [];
    var groups := FindAll(node, "group");
    for i := 0 to |groups|
      invariant IdList(GroupMembers(groups[..i], "dependency")) == Ok(dependencies)
    {
      var members := FindAll(groups[i], "dependency");
      NextGroup(groups, i, "dependency");
      IdListConcat(GroupMembers(groups[..i], "dependency"), members);
      var step := AppendIds(dependencies, members);
      if step.Err? {
        GroupFailureFails(node, groups, i + 1);
        return Err(MissingId);
      }
      dependencies := step.value;
    }
    assert groups[..|groups|] == groups;
    var direct := FindAll(node, "dependency");
    IdListConcat(GroupMembers(groups, "dependency"), direct);
    IdListIsIds(direct);
    r := AppendIds(dependencies, direct);
  }

  /** main.py `extract_dependencies`. */
  method ExtractDependenciesList(archive: Archive) returns (r: Result<seq<string>>)
    ensures r == OrderedDependencies(archive)
  {
    var found := NuspecRoot(archive);
    if found.Err? {
      return Err(found.error);
    }
    var root := found.value;
    var metadata := Find(root, "metadata");
    if metadata.None? {
      return Err(ManifestInvalid);
    }
    var node := Find(metadata.value, "dependencies");
    if node.Some? {
      r := CollectIdList(node.value);
    } else {
      r := Ok([]);
    }
  }

  // ---------------------------------------------------------------------------
  // Namespaced manifests

  /** The same document with every tag placed in namespace `ns`, as ElementTree reports `xmlns="ns"`. */
  function QualifyTree(e: Element, ns: string): Element
    decreases e
  {
    Element(Qualify(ns, e.tag), e.attrib,
            seq(|e.children|, i requires 0 <= i < |e.children| => QualifyTree(e.children[i], ns)))
  }

  function QualifyAll(es: seq<Element>, ns: string): (r: seq<Element>)
    ensures |r| == |es|
  {
    seq(|es|, i requires 0 <= i < |es| => QualifyTree(es[i], ns))
  }

  lemma QualifyInjective(ns: string, a: string, b: string)
    ensures Qualify(ns, a) == Qualify(ns, b) <==> a == b
  {
    if ns != "" && Qualify(ns, a) == Qualify(ns, b) {
      var p := "{" + ns + "}";
      assert Qualify(ns, a) == p + a && Qualify(ns, b) == p + b;
      assert a == (p + a)[|p|..] && b == (p + b)[|p|..];
    }
  }

  /** Looking up `Qualify(ns, t)` among qualified children finds the qualified forms of the `t` children. */
  lemma {:induction false} MatchingQualified(children: seq<Element>, ns: string, t: string)
    ensures Matching(QualifyAll(children, ns), Qualify(ns, t)) == QualifyAll(Matching(children, t), ns)
  {
    if children != [] {
      var c0 := children[0];
      var q := QualifyAll(children, ns);
      var head: seq<Element> := if c0.tag == t then [c0] else [];
      assert q[0] == QualifyTree(c0, ns);
      assert q[1..] == QualifyAll(children[1..], ns);
      QualifyInjective(ns, c0.tag, t);
      MatchingQualified(children[1..], ns, t);
      assert Matching(q, Qualify(ns, t)) == QualifyAll(head, ns) + QualifyAll(Matching(children[1..], t), ns);
      QualifyAllConcat(head, Matching(children[1..], t), ns);
    }
  }

  lemma FindAllQualified(e: Element, ns: string, t: string)
    ensures FindAll(QualifyTree(e, ns), Qualify(ns, t)) == QualifyAll(FindAll(e, t), ns)
    ensures Find(QualifyTree(e, ns), Qualify(ns, t)) ==
              match Find(e, t) case None => None case Some(x) => Some(QualifyTree(x, ns))
  {
    assert QualifyTree(e, ns).children == QualifyAll(e.children, ns);
    MatchingQualified(e.children, ns, t);
  }

  lemma QualifyAllConcat(a: seq<Element>, b: seq<Element>, ns: string)
    ensures QualifyAll(a + b, ns) == QualifyAll(a, ns) + QualifyAll(b, ns)
  {
  }

  lemma {:induction false} GroupMembersQualified(groups: seq<Element>, ns: string, depTag: string)
    ensures GroupMembers(QualifyAll(groups, ns), Qualify(ns, depTag)) == QualifyAll(GroupMembers(groups, depTag), ns)
  {
    if groups != [] {
      var n := |groups| - 1;
      var qgroups := QualifyAll(groups, ns);
      assert qgroups[..n] == QualifyAll(groups[..n], ns);
      assert qgroups[n] == QualifyTree(groups[n], ns);
      GroupMembersQualified(groups[..n], ns, depTag);
      FindAllQualified(groups[n], ns, depTag);
      assert GroupMembers(qgroups, Qualify(ns, depTag))
          == GroupMembers(qgroups[..n], Qualify(ns, depTag)) + FindAll(qgroups[n], Qualify(ns, depTag));
      assert GroupMembers(groups, depTag) == GroupMembers(groups[..n], depTag) + FindAll(groups[n], depTag);
      QualifyAllConcat(GroupMembers(groups[..n], depTag), FindAll(groups[n], depTag), ns);
    }
  }

  /** Tags do not enter the ids. */
  lemma {:induction false} IdSetQualified(es: seq<Element>, ns: string)
    ensures IdSet(QualifyAll(es, ns)) == IdSet(es)
  {
    if es != [] {
      var n := |es| - 1;
      assert QualifyAll(es, ns)[..n] == QualifyAll(es[..n], ns);
      IdSetQualified(es[..n], ns);
    }
  }

  lemma DependencyElementsQualified(deps: Element, ns: string)
    ensures DependencyElements(QualifyTree(deps, ns), ns) == QualifyAll(DependencyElements(deps, ""), ns)
  {
    FindAllQualified(deps, ns, "group");
    FindAllQualified(deps, ns, "dependency");
    GroupMembersQualified(FindAll(deps, "group"), ns, "dependency");
    QualifyAllConcat(GroupMembers(FindAll(deps, "group"), "dependency"), FindAll(deps, "dependency"), ns);
  }

  lemma DependenciesNodeQualified(root: Element, ns: string)
    ensures DependenciesNode(root, "").Err? ==> DependenciesNode(QualifyTree(root, ns), ns) == DependenciesNode(root, "")
    ensures DependenciesNode(root, "") == Ok(None) ==> DependenciesNode(QualifyTree(root, ns), ns) == Ok(None)
    ensures DependenciesNode(root, "").Ok? && DependenciesNode(root, "").value.Some? ==>
              DependenciesNode(QualifyTree(root, ns), ns) == Ok(Some(QualifyTree(DependenciesNode(root, "").value.value, ns)))
  {
    FindAllQualified(root, ns, "metadata");
    match Find(root, "metadata")
    case None =>
    case Some(metadata) =>
      FindAllQualified(metadata, ns, "dependencies");
  }

  /**
   * Namespace-awareness of dependency_visualizer.py: a manifest whose root
   * declares a namespace yields the same dependency set as the same manifest
   * written without one.
   */
  lemma NamespacedManifestSameSet(name: string, root: Element, ns: string)
    requires EndsWith(name, NuspecSuffix)
    requires !StartsWith(root.tag, "{") && WellFormedNamespace(ns)
    ensures DependencySet([ArchiveEntry(name, Some(QualifyTree(root, ns)))])
            == DependencySet([ArchiveEntry(name, Some(root))])
  {
    NamespaceOfQualified(ns, root.tag);
    assert NamespaceOf(root.tag) == "";
    DependenciesNodeQualified(root, ns);
    match DependenciesNode(root, "")
    case Err(_) =>
    case Ok(None) =>
    case Ok(Some(deps)) =>
      DependencyElementsQualified(deps, ns);
      IdSetQualified(DependencyElements(deps, ""), ns);
  }

  lemma {:induction false} NoMatching(children: seq<Element>, tag: string)
    requires forall i :: 0 <= i < |children| ==> children[i].tag != tag
    ensures Matching(children, tag) == []
  {
    if children != [] {
      NoMatching(children[1..], tag);
    }
  }

  /**
   * main.py looks `metadata` up without a namespace, so a manifest whose root
   * declares one is rejected as invalid.
   */
  lemma NamespacedManifestRejectedByList(name: string, root: Element, ns: string)
    requires EndsWith(name, NuspecSuffix) && WellFormedNamespace(ns)
    ensures OrderedDependencies([ArchiveEntry(name, Some(QualifyTree(root, ns)))]) == Err(ManifestInvalid)
  {
    var q := QualifyTree(root, ns);
    forall i | 0 <= i < |q.children| ensures q.children[i].tag != "metadata" {
      var t := root.children[i].tag;
      assert q.children[i] == QualifyTree(root.children[i], ns);
      assert q.children[i].tag == "{" + ns + "}" + t;
      assert q.children[i].tag[0] == '{';
    }
    NoMatching(q.children, "metadata");
  }

  /** The manifest of the test suite: two ungrouped dependencies. */
  function SampleDependencies(): Element {
    Element("dependencies", map[], [
      Element("dependency", map["id" := "Newtonsoft.Json", "version" := "12.0.3"], []),
      Element("dependency", map["id" := "Serilog", "version" := "2.10.0"], [])])
  }

  function SampleManifest(): Element {
    Element("package", map[], [Element("metadata", map[], [SampleDependencies()])])
  }

  lemma SampleManifestRoot()
    ensures NuspecRoot([ArchiveEntry("package.nuspec", Some(SampleManifest()))]) == Ok(SampleManifest())
    ensures NamespaceOf(SampleManifest().tag) == ""
    ensures DependenciesNode(SampleManifest(), "") == Ok(Some(SampleDependencies()))
  {
    assert "package.nuspec"[|"package.nuspec"| - |NuspecSuffix|..] == NuspecSuffix;
    assert !StartsWith(SampleManifest().tag, "{") by {
      assert SampleManifest().tag[..1][0] == 'p';
    }
    var metadata := SampleManifest().children[0];
    assert Matching(SampleManifest().children, "metadata") == [metadata];
    assert Matching(metadata.children, "dependencies") == [SampleDependencies()];
  }

  lemma SampleManifestElements()
    ensures DependencyElements(SampleDependencies(), "") == SampleDependencies().children
  {
    var children := SampleDependencies().children;
    assert Matching(children[1..][1..], "group") == [];
    assert Matching(children[1..], "group") == [];
    assert Matching(children, "group") == [];
    assert Matching(children[1..][1..], "dependency") == [];
    assert Matching(children[1..], "dependency") == [children[1]];
    assert Matching(children, "dependency") == children;
  }

  lemma SampleIds()
    ensures IdSet(SampleDependencies().children) == {"Newtonsoft.Json", "Serilog"}
    ensures IdList(SampleDependencies().children) == Ok(["Newtonsoft.Json", "Serilog"])
  {
    var children := SampleDependencies().children;
    var d0, d1 := children[0], children[1];
    assert children == [d0] + [d1];
    assert [d0] == [] + [d0];
    assert HasUsableId(d0) && d0.attrib["id"] == "Newtonsoft.Json";
    assert HasUsableId(d1) && d1.attrib["id"] == "Serilog";
    IdSetAppend([d0], d1);
    IdSetAppend([], d0);
    IdListAppend([], d0);
    assert "id" in d0.attrib;
    var empty: seq<string> := [];
    assert IdList([]) == Ok(empty);
    assert IdList([] + [d0]) == Ok(empty + ["Newtonsoft.Json"]);
    assert [] + [d0] == [d0];
    assert empty + ["Newtonsoft.Json"] == ["Newtonsoft.Json"];
    assert IdList([d0]) == Ok(["Newtonsoft.Json"]);
    IdListAppend([d0], d1);
    assert IdList(children) == Ok(["Newtonsoft.Json"] + ["Serilog"]);
    assert ["Newtonsoft.Json"] + ["Serilog"] == ["Newtonsoft.Json", "Serilog"];
  }

  lemma SampleManifestDependencies()
    ensures DependencySet([ArchiveEntry("package.nuspec", Some(SampleManifest()))])
            == Ok({"Newtonsoft.Json", "Serilog"})
    ensures OrderedDependencies([ArchiveEntry("package.nuspec", Some(SampleManifest()))])
            == Ok(["Newtonsoft.Json", "Serilog"])
  {
    SampleManifestRoot();
    SampleManifestElements();
    SampleIds();
  }
}
