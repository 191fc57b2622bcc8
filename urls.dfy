/**
 * URL builders of both variants. Each lower-cases the package name before
 * placing it in the URL, so two names that differ only in case address the
 * same registry resource, and names that differ otherwise never do.
 */
module Urls {
  import opened Text

  const FlatContainerBase := "https://api.nuget.org/v3-flatcontainer/"
  const RegistrationPath := "/registration5-gz-semver2/"
  const IndexJson := "/index.json"

  /** The flat container version listing of a package (dependency_visualizer.py). */
  function GetFlatcontainerIndexUrl(packageName: string): string {
    FlatContainerBase + Lower(packageName) + IndexJson
  }

  /** The flat container `.nupkg` download address (dependency_visualizer.py). */
  function GetDownloadUrl(packageName: string, version: string): string {
    var lower := Lower(packageName);
    FlatContainerBase + lower + "/" + version + "/" + lower + "." + version + ".nupkg"
  }

  /** The registration index of a package (main.py). */
  function GetRegistrationIndexUrl(repositoryUrl: string, packageName: string): string {
    repositoryUrl + RegistrationPath + Lower(packageName) + IndexJson
  }

  /** The registration leaf of one version, from which main.py reads the content URL. */
  function GetRegistrationLeafUrl(repositoryUrl: string, packageName: string, version: string): string {
    repositoryUrl + RegistrationPath + Lower(packageName) + "/" + version + ".json"
  }

  /** Cutting the fixed prefix and suffix off a string of the shape `p + m + q` gives back `m`. */
  lemma Middle(p: string, m: string, q: string)
    ensures (p + m + q)[|p|..|p| + |m|] == m
  {
  }

  lemma {:induction false} FlatcontainerIndexUrlIgnoresCase(a: string, b: string)
    ensures GetFlatcontainerIndexUrl(a) == GetFlatcontainerIndexUrl(b) <==> Lower(a) == Lower(b)
    ensures GetFlatcontainerIndexUrl(a)[|FlatContainerBase|..|FlatContainerBase| + |a|] == Lower(a)
  {
    Middle(FlatContainerBase, Lower(a), IndexJson);
    Middle(FlatContainerBase, Lower(b), IndexJson);
    if GetFlatcontainerIndexUrl(a) == GetFlatcontainerIndexUrl(b) {
      assert |Lower(a)| == |Lower(b)|;
    }
  }

  lemma {:induction false} DownloadUrlIgnoresCase(a: string, b: string, version: string)
    ensures GetDownloadUrl(a, version) == GetDownloadUrl(b, version) <==> Lower(a) == Lower(b)
    ensures GetDownloadUrl(a, version)[|FlatContainerBase|..|FlatContainerBase| + |a|] == Lower(a)
  {
    var tail := "/" + version + "/";
    var ua := FlatContainerBase + Lower(a) + (tail + Lower(a) + "." + version + ".nupkg");
    var ub := FlatContainerBase + Lower(b) + (tail + Lower(b) + "." + version + ".nupkg");
    assert GetDownloadUrl(a, version) == ua;
    assert GetDownloadUrl(b, version) == ub;
    Middle(FlatContainerBase, Lower(a), tail + Lower(a) + "." + version + ".nupkg");
    Middle(FlatContainerBase, Lower(b), tail + Lower(b) + "." + version + ".nupkg");
    if ua == ub {
      assert |Lower(a)| == |Lower(b)| by {
        assert |ua| == |FlatContainerBase| + 2 * |a| + |tail| + 1 + |version| + 6;
      }
    }
  }

  lemma {:induction false} RegistrationIndexUrlIgnoresCase(repositoryUrl: string, a: string, b: string)
    ensures GetRegistrationIndexUrl(repositoryUrl, a) == GetRegistrationIndexUrl(repositoryUrl, b)
            <==> Lower(a) == Lower(b)
    ensures var p := repositoryUrl + RegistrationPath;
            GetRegistrationIndexUrl(repositoryUrl, a)[|p|..|p| + |a|] == Lower(a)
  {
    var p := repositoryUrl + RegistrationPath;
    assert GetRegistrationIndexUrl(repositoryUrl, a) == p + Lower(a) + IndexJson;
    assert GetRegistrationIndexUrl(repositoryUrl, b) == p + Lower(b) + IndexJson;
    Middle(p, Lower(a), IndexJson);
    Middle(p, Lower(b), IndexJson);
    if GetRegistrationIndexUrl(repositoryUrl, a) == GetRegistrationIndexUrl(repositoryUrl, b) {
      assert |Lower(a)| == |Lower(b)|;
    }
  }

  lemma {:induction false} RegistrationLeafUrlIgnoresCase(repositoryUrl: string, a: string, b: string, version: string)
    ensures GetRegistrationLeafUrl(repositoryUrl, a, version) == GetRegistrationLeafUrl(repositoryUrl, b, version)
            <==> Lower(a) == Lower(b)
  {
    var p := repositoryUrl + RegistrationPath;
    var q := "/" + version + ".json";
    assert GetRegistrationLeafUrl(repositoryUrl, a, version) == p + Lower(a) + q;
    assert GetRegistrationLeafUrl(repositoryUrl, b, version) == p + Lower(b) + q;
    Middle(p, Lower(a), q);
    Middle(p, Lower(b), q);
    if GetRegistrationLeafUrl(repositoryUrl, a, version) == GetRegistrationLeafUrl(repositoryUrl, b, version) {
      assert |Lower(a)| == |Lower(b)|;
    }
  }
}
