/**
 * What one graph node costs in each variant: the chain of registry requests
 * and local steps between a package name and its dependency list, where a
 * raise anywhere is caught by build_dependency_graph. HTTP is replaced by
 * lookups keyed by the requested URL: None stands for a status other than
 * 200 or a body that does not decode.
 */
module Pipeline {
  import opened Failures
  import opened Text
  import Urls
  import opened StableVersion
  import opened Registration
  import opened Manifest
  import opened Graph

  /** The flat container API as dependency_visualizer.py uses it. */
  datatype FlatContainer = FlatContainer(
    versionLists: string -> Option<seq<string>>,  // `data.get('versions', [])` of the index document
    packages: string -> Option<Archive>)          // the downloaded archive, already unpacked

  /** dependency_visualizer.py: list the versions, pick the newest stable one, download it, read its manifest. */
  function ResolveFlat(api: FlatContainer, parse: Parser, name: string): Result<set<string>> {
    var versions :- Need(api.versionLists(Urls.GetFlatcontainerIndexUrl(name)), RegistryUnavailable);
    if versions == [] then Err(NoVersionsFound)
    else
      var version :- LatestStable(versions, parse);
      var archive :- Need(api.packages(Urls.GetDownloadUrl(name, version)), PackageNotFound);
      DependencySet(archive)
  }

  /** The registration API as main.py uses it. */
  datatype RegistrationApi = RegistrationApi(
    indexes: string -> Option<RegistrationIndex>,
    pages: PageFetcher,
    leaves: string -> Option<Leaf>,
    packages: string -> Option<Archive>)

  /** main.py: last registered version, its leaf, its content URL, the archive, its manifest. */
  function ResolveRegistration(api: RegistrationApi, repositoryUrl: string, name: string): Result<seq<string>> {
    var index :- Need(api.indexes(Urls.GetRegistrationIndexUrl(repositoryUrl, name)), RegistryUnavailable);
    var version :- LatestVersion(index, api.pages);
    var leaf :- Need(api.leaves(Urls.GetRegistrationLeafUrl(repositoryUrl, name, version)), RegistryUnavailable);
    var url :- DownloadUrl(leaf);
    var archive :- Need(api.packages(url), PackageNotFound);
    OrderedDependencies(archive)
  }

  /** Both chains read the package name only through its lower-case form. */
  lemma ResolveFlatIgnoresCase(api: FlatContainer, parse: Parser, a: string, b: string)
    requires Lower(a) == Lower(b)
    ensures ResolveFlat(api, parse, a) == ResolveFlat(api, parse, b)
  {
    Urls.FlatcontainerIndexUrlIgnoresCase(a, b);
    forall version: string ensures Urls.GetDownloadUrl(a, version) == Urls.GetDownloadUrl(b, version) {
      Urls.DownloadUrlIgnoresCase(a, b, version);
    }
  }

  lemma ResolveRegistrationIgnoresCase(api: RegistrationApi, repositoryUrl: string, a: string, b: string)
    requires Lower(a) == Lower(b)
    ensures ResolveRegistration(api, repositoryUrl, a) == ResolveRegistration(api, repositoryUrl, b)
  {
    Urls.RegistrationIndexUrlIgnoresCase(repositoryUrl, a, b);
    forall version: string
      ensures Urls.GetRegistrationLeafUrl(repositoryUrl, a, version) == Urls.GetRegistrationLeafUrl(repositoryUrl, b, version)
    {
      Urls.RegistrationLeafUrlIgnoresCase(repositoryUrl, a, b, version);
    }
  }

  /** dependency_visualizer.py fails with the first failing step, in order. */
  lemma ResolveFlatFailures(api: FlatContainer, parse: Parser, name: string)
    ensures api.versionLists(Urls.GetFlatcontainerIndexUrl(name)).None? ==> ResolveFlat(api, parse, name) == Err(RegistryUnavailable)
    ensures api.versionLists(Urls.GetFlatcontainerIndexUrl(name)) == Some([]) ==> ResolveFlat(api, parse, name) == Err(NoVersionsFound)
    ensures api.versionLists(Urls.GetFlatcontainerIndexUrl(name)).Some?
            && api.versionLists(Urls.GetFlatcontainerIndexUrl(name)).value != []
            && (forall v :: v in api.versionLists(Urls.GetFlatcontainerIndexUrl(name)).value ==> !Survives(v, parse))
            ==> ResolveFlat(api, parse, name) == Err(NoStableVersion)
    ensures ResolveFlat(api, parse, name).Ok? ==>
              api.versionLists(Urls.GetFlatcontainerIndexUrl(name)).Some?
              && exists v :: v in api.versionLists(Urls.GetFlatcontainerIndexUrl(name)).value && Survives(v, parse)
  {
    var listing := api.versionLists(Urls.GetFlatcontainerIndexUrl(name));
    if listing.Some? && listing.value != [] {
      CandidatesAreSurvivors(listing.value, parse);
      var candidates := Candidates(listing.value, parse);
      if candidates != [] {
        assert candidates[0] in candidates;
      }
    }
  }

  // ---------------------------------------------------------------------------
  // The two resolvers the graph walk uses

  /** main.py: a node is recorded with its ordered list, and left out when any step raises. */
  function RegistrationResolver(api: RegistrationApi, repositoryUrl: string): Resolver {
    name => ResolveRegistration(api, repositoryUrl, name).ToOption()
  }

  /**
   * dependency_visualizer.py records `list(dependencies)` of a set, whose order
   * is the set's iteration order; any resolver that lists each set once
   * without repeats stands for it.
   */
  ghost predicate ListsFlatSets(resolve: Resolver, api: FlatContainer, parse: Parser) {
    forall name ::
      && (resolve(name).Some? <==> ResolveFlat(api, parse, name).Ok?)
      && (resolve(name).Some? ==>
            Manifest.Distinct(resolve(name).value)
            && forall d :: d in resolve(name).value <==> d in ResolveFlat(api, parse, name).value)
  }

  /** A resolver that behaves as main.py's per-package chain inside its `try`. */
  ghost predicate CatchesRegistration(resolve: Resolver, api: RegistrationApi, repositoryUrl: string) {
    forall name :: resolve(name) == ResolveRegistration(api, repositoryUrl, name).ToOption()
  }

  lemma RegistrationResolverCatches(api: RegistrationApi, repositoryUrl: string)
    ensures CatchesRegistration(RegistrationResolver(api, repositoryUrl), api, repositoryUrl)
  {
  }

  lemma CaughtMeansOk<T>(r: Result<T>, v: T)
    requires r.ToOption() == Some(v)
    ensures r == Ok(v)
  {
  }

  /** Every node main.py records carries the full ordered dependency list of that package. */
  lemma RegistrationGraphEntries(resolve: Resolver, api: RegistrationApi, repositoryUrl: string, root: string, maxDepth: int)
    requires CatchesRegistration(resolve, api, repositoryUrl)
    ensures var g := BuildGraph(resolve, root, maxDepth);
      forall i :: 0 <= i < |g| ==> ResolveRegistration(api, repositoryUrl, g[i].0) == Ok(g[i].1)
  {
    var g := BuildGraph(resolve, root, maxDepth);
    assert Recorded(resolve, g) by {
      BuildGraphProperties(resolve, root, maxDepth);
    }
    forall i | 0 <= i < |g| ensures ResolveRegistration(api, repositoryUrl, g[i].0) == Ok(g[i].1) {
      CaughtMeansOk(ResolveRegistration(api, repositoryUrl, g[i].0), g[i].1);
    }
  }

  /**
   * A name skipped because a case variant of it was visited before would have
   * resolved exactly like that variant, so main.py's walk loses nothing by it.
   */
  lemma CaseVariantSkipLosesNothing(api: RegistrationApi, repositoryUrl: string, a: string, b: string)
    requires Lower(a) == Lower(b)
    ensures RegistrationResolver(api, repositoryUrl)(a) == RegistrationResolver(api, repositoryUrl)(b)
  {
    ResolveRegistrationIgnoresCase(api, repositoryUrl, a, b);
  }

  /** Every node dependency_visualizer.py records lists, once each, exactly the ids of that package's manifest. */
  lemma FlatGraphEntries(resolve: Resolver, api: FlatContainer, parse: Parser, root: string, maxDepth: int)
    requires ListsFlatSets(resolve, api, parse)
    ensures var g := BuildGraph(resolve, root, maxDepth);
      forall i :: 0 <= i < |g| ==>
        ResolveFlat(api, parse, g[i].0).Ok? && Manifest.Distinct(g[i].1)
        && forall d :: d in g[i].1 <==> d in ResolveFlat(api, parse, g[i].0).value
  {
    var g := BuildGraph(resolve, root, maxDepth);
    assert Recorded(resolve, g) by {
      BuildGraphProperties(resolve, root, maxDepth);
    }
    forall i | 0 <= i < |g|
      ensures ResolveFlat(api, parse, g[i].0).Ok? && Manifest.Distinct(g[i].1)
      ensures forall d :: d in g[i].1 <==> d in ResolveFlat(api, parse, g[i].0).value
    {
      assert resolve(g[i].0) == Some(g[i].1);
    }
  }
}
