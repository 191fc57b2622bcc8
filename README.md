# NuGet dependency visualizer, modelled in Dafny

The repository holds one command-line tool written twice. Given a NuGet package
name, both versions walk the package's dependencies depth-first up to a depth
bound and print the resulting graph as Graphviz DOT text.

- `dependency_visualizer.py` picks each package's version from the
  flat-container API. It takes the newest stable version among all listed
  versions. A version counts as stable when it has no `-beta`/`-rc`/`-preview`/`-dev`
  marker and is not a prerelease to the version parser. It reads the ids
  inside the `.nuspec` manifest as a set, honouring an XML namespace on the
  root element.
- `main.py` picks the last entry of the last page of the registration API. It
  reads the content URL of that version's registration leaf. It reads the ids
  as an ordered list without namespace handling, and a dependency without an
  `id` makes it raise.

In both versions a package whose resolution raises is marked visited but left
out of the graph, and the walk goes on.

The project models each step as Dafny:

- `failures.dfy`: the raises, as a `Result`.
- `text.dfy`: ASCII lower-casing and the string tests used.
- `urls.dfy`: the URL builders.
- `versions.dfy`: `get_latest_stable_version`.
- `registration.dfy`: `get_latest_version` and `get_download_url` of `main.py`.
- `manifest.dfy`: the manifest reading. It holds a small element tree with
  `find`/`findall` and both `extract_dependencies`. The loops are methods
  proved against specification functions.
- `graph.dfy`: `build_dependency_graph`. The `Visit`/`VisitAll` functions
  specify the walk. The `Builder` class walks it imperatively, with the
  graph (an insertion-ordered dictionary, as a sequence of pairs) and the
  visited set as fields.
- `dot.dfy`: `generate_dot`, as a method with nested loops proved against `Dot`.
- `pipeline.dfy`: the per-package chain of each version, and how it connects
  to the graph walk.
- `graph_examples.dfy`: concrete walks.

The walk is depth-first with one shared visited set. A package first reached
at the depth bound is therefore never resolved again along a shorter path
(`GraphExamples.ShorterPathNotRevisited`).

## Model

| member | source | states |
|---|---|---|
| Text.BeforeFirst | dependency_visualizer.py:154-155 | the namespace text taken before the first `}` is a prefix of the tag, holds no `}`, and is followed by `}` when the tag has one |
| Text.Strip | dependency_visualizer.py:155 | the result is the input with a run of `{` removed from the front and another from the back and nothing else, and it is empty or neither starts nor ends with `{` |
| Urls.FlatcontainerIndexUrlIgnoresCase | dependency_visualizer.py:45-51 | two names give the same index URL exactly when their lower-case forms are equal |
| Urls.DownloadUrlIgnoresCase | dependency_visualizer.py:113-120 | two names give the same download URL for a version exactly when their lower-case forms are equal |
| Urls.RegistrationIndexUrlIgnoresCase | main.py:44-51 | two names give the same registration index URL exactly when their lower-case forms are equal |
| Urls.RegistrationLeafUrlIgnoresCase | main.py:93-94 | two names give the same registration leaf URL for a version exactly when their lower-case forms are equal |
| StableVersion.KeyLeTotal | dependency_visualizer.py:107 | any two parsed versions are comparable, so `max` is well defined |
| StableVersion.KeyLeTransitive | dependency_visualizer.py:107 | the version order is transitive |
| StableVersion.CandidatesAreSurvivors | dependency_visualizer.py:88-102 | a parsed version is kept exactly when some listed string has no prerelease keyword (case-insensitively), parses, is not a prerelease, and parses to it |
| StableVersion.Maximum | dependency_visualizer.py:107 | the selected version is one of the candidates and no candidate is greater |
| StableVersion.GetLatestStableVersion | dependency_visualizer.py:83-110 | the filtering loop fails with NoStableVersion exactly when no version survives; otherwise it returns the text of a surviving version that is at least every survivor |
| StableVersion.NoDashNoMarker | dependency_visualizer.py:91 | a version string without `-` is never dropped by the keyword filter |
| StableVersion.MarkedAt | dependency_visualizer.py:91 | a version string without upper-case letters that contains one of the four markers is dropped by the keyword filter |
| StableVersion.CandidatesConcat | dependency_visualizer.py:89-102 | filtering a concatenation filters each part in order |
| StableVersion.MixedListSelectsNewestClean | tests/test_dependency_visualizer.py:16-28 | from 1.0.0, 1.1.0-beta, 1.2.0, 2.0.0-rc1, 2.1.0, 3.0.0-dev and 3.1.0, with the clean versions parsing to their release numbers, 3.1.0 is selected |
| StableVersion.OnlyPrereleasesFail | tests/test_dependency_visualizer.py:30-38 | a list of marked prereleases fails with NoStableVersion |
| Registration.LatestVersion | main.py:54-86 | no pages fails with NoRegistrationPages; a success is the version of the last item of the (fetched, if linked) last page |
| Registration.LatestVersionIsLastAppended | main.py:74-86 | whatever precedes it, the version last appended to the last inlined page is selected |
| Registration.EmptyLastPageFails | main.py:79-81 | a last page without items fails with NoPageItems, even when earlier pages hold versions |
| Registration.LinkedLastPage | main.py:74-77 | a last page given as a URL is read through the fetch; a failed fetch fails, a successful one behaves as the fetched page inlined |
| Registration.DownloadUrl | main.py:105-110 | succeeds exactly when `packageContent` is present and non-empty, returns it unchanged, and otherwise fails with NoDownloadUrl |
| Manifest.NuspecRoot | dependency_visualizer.py:142-150 | fails with ManifestMissing exactly when no archive entry ends in `.nuspec`; otherwise the name of the first such entry is read back, and the result is the parsed document of the last entry carrying that name, or MalformedManifest when it does not parse |
| Manifest.LastNamed | dependency_visualizer.py:147 | reading an entry by name finds the last entry carrying that name, and finds nothing exactly when no entry carries it |
| Manifest.RepeatedNuspecReadsLast | main.py:131-134 | with two entries named `a.nuspec`, the second is read: its document when it parses, MalformedManifest otherwise, whatever the first holds |
| Manifest.NamespaceOfQualified | dependency_visualizer.py:152-157 | a root tag `{ns}name` with a well-formed namespace yields exactly `ns` |
| Manifest.Matching | dependency_visualizer.py:167-176 | an element is found by `findall` exactly when it is a child with the tag |
| Manifest.MatchingSingle | dependency_visualizer.py:167-176 | a single child is found exactly when its tag matches |
| Manifest.MatchingConcat | main.py:147-151 | `findall` over split children is the concatenation of the two searches, so matches keep document order and repeats |
| Manifest.GroupMembersAre | dependency_visualizer.py:167-173 | the grouped dependencies are exactly the `dependency` children of the `group` children |
| Manifest.IdSetMembers | dependency_visualizer.py:170-181 | the id set holds exactly the non-empty `id` values of the elements |
| Manifest.DependencySetMembers | dependency_visualizer.py:138-183 | an id is collected exactly when it is non-empty and is the `id` of a `dependency` under a `group` of the dependencies node or directly under it |
| Manifest.ListOfSet | dependency_visualizer.py:183 | the list has no repeats and exactly the set's members |
| Manifest.AddIds | dependency_visualizer.py:177-181 | the loop adds exactly the ids of the elements to the set |
| Manifest.CollectIds | dependency_visualizer.py:164-181 | the nested loops collect exactly the id set of the dependencies node |
| Manifest.ExtractDependenciesSet | dependency_visualizer.py:138-183 | fails exactly as the specification does; on success the list has no repeats and exactly the specified ids |
| Manifest.IdListIsIds | main.py:145-152 | the ordered id list succeeds exactly when every dependency has an id, keeps the length, and otherwise fails with MissingId |
| Manifest.IdListPrefixFails | main.py:147-152 | a missing id anywhere fails the whole list |
| Manifest.IdListConcat | main.py:145-152 | the ids of grouped then ungrouped dependencies are the concatenation of the two lists |
| Manifest.GroupFailureFails | main.py:147-149 | a missing id in a group fails regardless of what follows |
| Manifest.AppendIds | main.py:151-152 | the loop appends the elements' ids in order, or fails with MissingId |
| Manifest.CollectIdList | main.py:144-152 | the nested loops produce the specified ordered id list |
| Manifest.ExtractDependenciesList | main.py:125-154 | the method returns the specified ordered dependencies of the archive, with the same failures |
| Manifest.NamespacedManifestSameSet | dependency_visualizer.py:152-176 | a manifest whose every tag carries a namespace gives the same dependency set as the same manifest without it |
| Manifest.NamespacedManifestRejectedByList | main.py:139-142 | the same namespaced manifest fails main.py's reading with ManifestInvalid |
| Manifest.SampleManifestDependencies | tests/test_dependency_visualizer.py:40-60 | the sample manifest gives {Newtonsoft.Json, Serilog} as a set and in order as a list |
| Graph.Put | dependency_visualizer.py:211 | assigning an existing key keeps the keys and their order; a new key is appended; every entry is the new pair or an old entry under another key |
| Graph.VisitExtends | dependency_visualizer.py:192-197 | a visit keeps the graph keys visited and their lower-case forms distinct, and only appends entries and grows the visited set |
| Graph.VisitAllExtends | dependency_visualizer.py:214-215 | the same for the loop over dependencies |
| Graph.VisitRecorded | dependency_visualizer.py:199-211 | every recorded entry is a package's resolved dependency list |
| Graph.VisitAllRecorded | dependency_visualizer.py:214-215 | the same for the loop over dependencies |
| Graph.VisitLinked | dependency_visualizer.py:211-215 | every key after the root is a dependency listed by an earlier entry |
| Graph.VisitAllLinked | dependency_visualizer.py:214-215 | the same for the loop over dependencies already listed |
| Graph.VisitGrows | dependency_visualizer.py:197 | the visited set only grows |
| Graph.VisitAllGrows | dependency_visualizer.py:214-215 | the visited set only grows over the loop |
| Graph.VisitMarks | dependency_visualizer.py:192-197 | within the depth bound, a visited package's lower-case name is marked visited, whatever its resolution does |
| Graph.VisitAllMarks | dependency_visualizer.py:214-215 | within the bound, every dependency in the loop ends up marked visited |
| Graph.BeyondDepthUnchanged | dependency_visualizer.py:192-193 | past the depth bound nothing changes |
| Graph.RepeatedNameSkipped | dependency_visualizer.py:194-195 | a dependency equal ignoring case to an earlier one in the same list adds nothing |
| Graph.BuildGraphProperties | dependency_visualizer.py:186-219 | the graph has case-distinct keys, resolved lists, every non-root key reached by an edge, is non-empty exactly when the bound is non-negative and the root resolves, and starts with the root |
| Graph.DepthZeroOnlyRoot | dependency_visualizer.py:192-211 | with depth bound 0 the graph is the root's entry alone, or empty |
| Graph.RootDependenciesVisited | dependency_visualizer.py:213-215 | with depth bound at least 1 every direct dependency of a resolved root is marked visited |
| Graph.Builder.constructor | dependency_visualizer.py:187-190 | the builder starts with an empty graph and an empty visited set |
| Graph.Builder.Build | dependency_visualizer.py:186-219 | the recursive method leaves graph and visited as the `Visit` specification does |
| Graph.Builder.BuildAll | dependency_visualizer.py:214-215 | the loop leaves graph and visited as the `VisitAll` specification does |
| Graph.BuildDependencyGraph | dependency_visualizer.py:186-219 | the returned graph is the specified one, with case-distinct keys, resolved lists, linked keys, the non-empty condition and the root first |
| GraphExamples.TestSuiteGraph | tests/test_dependency_visualizer.py:62-95 | TestPackage→[DepA, DepB], DepA→[DepC] with bound 2 gives exactly the expected graph in depth-first order |
| GraphExamples.CycleVisitedOnce | dependency_visualizer.py:194-197 | a cycle A→B→A records each package once |
| GraphExamples.ShorterPathNotRevisited | dependency_visualizer.py:192-197 | a package first reached at the bound is not walked again along a shorter path, so its dependency is never resolved |
| GraphExamples.FailedSiblingIsolated | dependency_visualizer.py:199-217 | a failing package is marked visited but not recorded, and its sibling is still walked |
| Dot.EdgeMembership | dependency_visualizer.py:227-229 | an edge appears exactly when some entry lists that dependency under that package |
| Dot.EdgeCount | dependency_visualizer.py:227-229 | there is one edge per listed dependency |
| Dot.EmptyListNoEdges | dependency_visualizer.py:228 | a package with no dependencies contributes no line |
| Dot.DotLineCount | dependency_visualizer.py:222-231 | for single-line names, the text starts with the header, ends with `}`, and has one line break per edge plus one |
| Dot.GenerateDot | dependency_visualizer.py:222-231 | the nested loops build exactly the specified DOT text |
| Dot.TestSuiteDot | tests/test_dependency_visualizer.py:97-118 | the test graph gives exactly the expected DOT text with three edges |
| Pipeline.ResolveFlatIgnoresCase | dependency_visualizer.py:54-135 | the flat-container chain gives the same result for names equal ignoring case |
| Pipeline.ResolveRegistrationIgnoresCase | main.py:54-122 | the registration chain gives the same result for names equal ignoring case |
| Pipeline.ResolveFlatFailures | dependency_visualizer.py:64-105 | a failed index fails with RegistryUnavailable, an empty one with NoVersionsFound, one without survivors with NoStableVersion; success implies a surviving version |
| Pipeline.RegistrationGraphEntries | main.py:157-188 | every entry main.py records is a package whose chain succeeds with exactly that ordered list |
| Pipeline.CaseVariantSkipLosesNothing | main.py:165-166 | a name skipped as a case variant of a visited one would have resolved identically |
| Pipeline.FlatGraphEntries | dependency_visualizer.py:186-219 | every entry dependency_visualizer.py records lists, once each, exactly that package's manifest ids |

## Left out

- Command-line parsing, the entry point, writing the DOT file and debug printing: pure I/O with no effect on the graph.
- HTTP requests: each request is a lookup keyed by its URL. A status other than 200 and a JSON decoding error both become a failed lookup, except for the linked last registration page (main.py:77), whose status is not checked: a non-200 reply with a decodable body is read as the page, which the page fetch represents by returning that body (typically without `items`, so NoPageItems follows).
- ZIP and XML decoding: an archive is a sequence of named entries, each holding its parsed document or none when the XML is malformed. A corrupt ZIP archive is not modelled.
- PEP 440 version parsing and `str(Version)` normalisation: the parser is a parameter giving a comparison key, a prerelease flag and the printed text.
- Unicode lower-casing: `Lower` folds ASCII letters only.
- The order of `list(set)` in `dependency_visualizer.py`: it depends on string hashing. The graph of that version is stated for any resolver that lists each set once (`ListsFlatSets`).
- The `repository_url` argument of `dependency_visualizer.py`: it is passed along but never used.
- Rendering DOT with the Graphviz subprocess: an external program.
- The Python recursion limit on deep dependency chains: the walk terminates by its depth bound and the model has no stack.
- Pipeline.ResolveFlatFailures: does not name the failure for a missing download or manifest, which `ResolveFlat` itself spells out.
