/**
 * Stable-version selection of dependency_visualizer.py (`get_latest_stable_version`).
 *
 * The version parser of the `packaging` library is a parameter: it maps a
 * version string to a parsed `Version` or fails. A parsed version carries its
 * comparison key (compared lexicographically, standing for the version
 * ordering of the library), its prerelease flag, and its normalised text
 * (what `str()` of it gives back).
 */
module StableVersion {
  import opened Failures
  import opened Text

  datatype Version = Version(key: seq<nat>, isPrerelease: bool, text: string)

  type Parser = string -> Option<Version>

  /** Lexicographic order on comparison keys; a proper prefix is smaller. */
  predicate KeyLe(a: seq<nat>, b: seq<nat>)
    decreases |a|
  {
    |a| == 0 || (|b| > 0 && (a[0] < b[0] || (a[0] == b[0] && KeyLe(a[1..], b[1..]))))
  }

  lemma {:induction false} KeyLeTotal(a: seq<nat>, b: seq<nat>)
    ensures KeyLe(a, b) || KeyLe(b, a)
    decreases |a|
  {
    if |a| > 0 && |b| > 0 && a[0] == b[0] {
      KeyLeTotal(a[1..], b[1..]);
    }
  }

  lemma {:induction false} KeyLeTransitive(a: seq<nat>, b: seq<nat>, c: seq<nat>)
    requires KeyLe(a, b) && KeyLe(b, c)
    ensures KeyLe(a, c)
    decreases |a|
  {
    if |a| > 0 && a[0] == b[0] && b[0] == c[0] {
      KeyLeTransitive(a[1..], b[1..], c[1..]);
    }
  }

  /** The keyword test: the lower-cased text contains one of the prerelease markers. */
  predicate HasPrereleaseMarker(v: string) {
    var l := Lower(v);
    Contains(l, "-beta") || Contains(l, "-rc") || Contains(l, "-preview") || Contains(l, "-dev")
  }

  /** A version string that passes both filters and parses. */
  predicate Survives(v: string, parse: Parser) {
    !HasPrereleaseMarker(v) && parse(v).Some? && !parse(v).value.isPrerelease
  }

  /** `stable_versions` after the loop over `versions`: the parsed survivors, in input order. */
  function Candidates(versions: seq<string>, parse: Parser): seq<Version> {
    if versions == [] then []
    else
      var last := versions[|versions| - 1];
      Candidates(versions[..|versions| - 1], parse) + (if Survives(last, parse) then [parse(last).value] else [])
  }

  /** The candidates are exactly the parsed forms of the surviving version strings. */
  lemma {:induction false} CandidatesAreSurvivors(versions: seq<string>, parse: Parser)
    ensures forall c :: c in Candidates(versions, parse) ==>
              exists v :: v in versions && Survives(v, parse) && parse(v).value == c
    ensures forall v :: v in versions && Survives(v, parse) ==> parse(v).value in Candidates(versions, parse)
  {
    if versions != [] {
      var init := versions[..|versions| - 1];
      var last := versions[|versions| - 1];
      assert versions == init + [last];
      CandidatesAreSurvivors(init, parse);
    }
  }

  /** Python's `max` over versions: the later of two keeps the place only when strictly greater. */
  function Maximum(vs: seq<Version>): (r: Version)
    requires |vs| > 0
    ensures r in vs
    ensures forall v :: v in vs ==> KeyLe(v.key, r.key)
  {
    if |vs| == 1 then KeyLeTotal(vs[0].key, vs[0].key); vs[0]
    else
      var init := vs[..|vs| - 1];
      var last := vs[|vs| - 1];
      assert vs == init + [last];
      var m := Maximum(init);
      if KeyLe(last.key, m.key) then m
      else
        KeyLeTotal(last.key, m.key);
        KeyLeTotal(last.key, last.key);
        forall v | v in init ensures KeyLe(v.key, last.key) {
          KeyLeTransitive(v.key, m.key, last.key);
        }
        last
  }

  /** What `get_latest_stable_version` returns or raises. */
  function LatestStable(versions: seq<string>, parse: Parser): Result<string> {
    var candidates := Candidates(versions, parse);
    if |candidates| == 0 then Err(NoStableVersion) else Ok(Maximum(candidates).text)
  }

  /**
   * dependency_visualizer.py `get_latest_stable_version`: the text of a survivor
   * that is at least every other survivor, or NoStableVersion when none survives.
   */
  method GetLatestStableVersion(versions: seq<string>, parse: Parser) returns (r: Result<string>)
    ensures r == LatestStable(versions, parse)
    ensures r.Err? <==> forall v :: v in versions ==> !Survives(v, parse)
    ensures r.Err? ==> r.error == NoStableVersion
    ensures r.Ok? ==> exists v :: v in versions && Survives(v, parse) && parse(v).value.text == r.value
                                  && forall w :: w in versions && Survives(w, parse) ==>
                                                   KeyLe(parse(w).value.key, parse(v).value.key)
  {
    var stable: seq<Version> := [];
    for i := 0 to |versions|
      invariant stable == Candidates(versions[..i], parse)
    {
      var v := versions[i];
      assert versions[..i + 1] == versions[..i] + [v];
      if HasPrereleaseMarker(v) {
        continue;  // keyword marker
      }
      match parse(v)
      case None =>
        // the parse error is caught and the version skipped
      case Some(parsed) =>
        if !parsed.isPrerelease {
          stable := stable + [parsed];
        }
    }
    assert versions[..|versions|] == versions;
    CandidatesAreSurvivors(versions, parse);
    if |stable| == 0 {
      r := Err(NoStableVersion);
    } else {
      var latest := Maximum(stable);
      r := Ok(latest.text);
    }
  }

  /** None of the four markers starts anywhere but at a '-', so a string without '-' has none. */
  lemma NoDashNoMarker(v: string)
    requires forall i :: 0 <= i < |v| ==> v[i] != '-'
    ensures !HasPrereleaseMarker(v)
  {
    var l := Lower(v);
    assert forall i :: 0 <= i < |l| ==> l[i] != '-';
    NotContainsFirstChar(l, "-beta");
    NotContainsFirstChar(l, "-rc");
    NotContainsFirstChar(l, "-preview");
    NotContainsFirstChar(l, "-dev");
  }

  function Stable(text: string, key: seq<nat>): Option<Version> {
    Some(Version(key, false, text))
  }

  lemma CandidatesAppend(init: seq<string>, last: string, parse: Parser)
    ensures Candidates(init + [last], parse)
            == Candidates(init, parse) + (if Survives(last, parse) then [parse(last).value] else [])
  {
    assert (init + [last])[..|init|] == init;
  }

  lemma MaximumAppend(init: seq<Version>, last: Version)
    requires |init| > 0
    ensures Maximum(init + [last]) == if KeyLe(last.key, Maximum(init).key) then Maximum(init) else last
  {
    assert (init + [last])[..|init|] == init;
  }

  /**
   * The mixed list of the test suite selects "3.1.0", whatever the parser makes
   * of the marked versions, as long as it parses the clean ones as usual.
   */
  lemma MixedListSelectsNewestClean(parse: Parser)
    requires parse("1.0.0") == Stable("1.0.0", [1, 0, 0])
    requires parse("1.2.0") == Stable("1.2.0", [1, 2, 0])
    requires parse("2.1.0") == Stable("2.1.0", [2, 1, 0])
    requires parse("3.1.0") == Stable("3.1.0", [3, 1, 0])
    ensures LatestStable(["1.0.0", "1.1.0-beta", "1.2.0", "2.0.0-rc1", "2.1.0", "3.0.0-dev", "3.1.0"], parse)
            == Ok("3.1.0")
  {
    MixedListCandidates(parse);
    NewestOfFour();
  }

  /** Filtering distributes over concatenation. */
  lemma {:induction false} CandidatesConcat(a: seq<string>, b: seq<string>, parse: Parser)
    ensures Candidates(a + b, parse) == Candidates(a, parse) + Candidates(b, parse)
    decreases |b|
  {
    if b != [] {
      var init := b[..|b| - 1];
      var last := b[|b| - 1];
      assert a + b == (a + init) + [last];
      assert b == init + [last];
      CandidatesAppend(a + init, last, parse);
      CandidatesAppend(init, last, parse);
      CandidatesConcat(a, init, parse);
    } else {
      assert a + b == a;
    }
  }

  lemma CandidatesSingle(v: string, parse: Parser)
    ensures Candidates([v], parse) == if Survives(v, parse) then [parse(v).value] else []
  {
    CandidatesAppend([], v, parse);
  }

  lemma MixedListCandidates(parse: Parser)
    requires parse("1.0.0") == Stable("1.0.0", [1, 0, 0])
    requires parse("1.2.0") == Stable("1.2.0", [1, 2, 0])
    requires parse("2.1.0") == Stable("2.1.0", [2, 1, 0])
    requires parse("3.1.0") == Stable("3.1.0", [3, 1, 0])
    ensures Candidates(["1.0.0", "1.1.0-beta", "1.2.0", "2.0.0-rc1", "2.1.0", "3.0.0-dev", "3.1.0"], parse)
            == [Version([1, 0, 0], false, "1.0.0"), Version([1, 2, 0], false, "1.2.0"),
                Version([2, 1, 0], false, "2.1.0"), Version([3, 1, 0], false, "3.1.0")]
  {
    var front := ["1.0.0", "1.1.0-beta", "1.2.0"];
    var back := ["2.0.0-rc1", "2.1.0", "3.0.0-dev", "3.1.0"];
    assert front + back == ["1.0.0", "1.1.0-beta", "1.2.0", "2.0.0-rc1", "2.1.0", "3.0.0-dev", "3.1.0"];
    CandidatesConcat(front, back, parse);
    FrontCandidates(parse);
    BackCandidates(parse);
  }

  lemma FrontCandidates(parse: Parser)
    requires parse("1.0.0") == Stable("1.0.0", [1, 0, 0])
    requires parse("1.2.0") == Stable("1.2.0", [1, 2, 0])
    ensures Candidates(["1.0.0", "1.1.0-beta", "1.2.0"], parse)
            == [Version([1, 0, 0], false, "1.0.0"), Version([1, 2, 0], false, "1.2.0")]
  {
    NoDashNoMarker("1.0.0");
    NoDashNoMarker("1.2.0");
    MarkedAt("1.1.0-beta", "-beta", 5);
    CandidatesSingle("1.0.0", parse);
    MarkedThenClean("1.1.0-beta", "1.2.0", parse);
    CandidatesConcat(["1.0.0"], ["1.1.0-beta", "1.2.0"], parse);
    assert ["1.0.0"] + ["1.1.0-beta", "1.2.0"] == ["1.0.0", "1.1.0-beta", "1.2.0"];
  }

  lemma BackCandidates(parse: Parser)
    requires parse("2.1.0") == Stable("2.1.0", [2, 1, 0])
    requires parse("3.1.0") == Stable("3.1.0", [3, 1, 0])
    ensures Candidates(["2.0.0-rc1", "2.1.0", "3.0.0-dev", "3.1.0"], parse)
            == [Version([2, 1, 0], false, "2.1.0"), Version([3, 1, 0], false, "3.1.0")]
  {
    NoDashNoMarker("2.1.0");
    NoDashNoMarker("3.1.0");
    MarkedAt("2.0.0-rc1", "-rc", 5);
    MarkedAt("3.0.0-dev", "-dev", 5);
    MarkedThenClean("2.0.0-rc1", "2.1.0", parse);
    MarkedThenClean("3.0.0-dev", "3.1.0", parse);
    CandidatesConcat(["2.0.0-rc1", "2.1.0"], ["3.0.0-dev", "3.1.0"], parse);
    assert ["2.0.0-rc1", "2.1.0"] + ["3.0.0-dev", "3.1.0"] == ["2.0.0-rc1", "2.1.0", "3.0.0-dev", "3.1.0"];
  }

  /** A marked version followed by a clean one leaves only the clean one. */
  lemma MarkedThenClean(marked: string, clean: string, parse: Parser)
    requires HasPrereleaseMarker(marked) && Survives(clean, parse)
    ensures Candidates([marked, clean], parse) == [parse(clean).value]
  {
    CandidatesSingle(marked, parse);
    CandidatesSingle(clean, parse);
    CandidatesConcat([marked], [clean], parse);
    assert [marked] + [clean] == [marked, clean];
  }

  lemma NewestOfFour()
    ensures Maximum([Version([1, 0, 0], false, "1.0.0"), Version([1, 2, 0], false, "1.2.0"),
                     Version([2, 1, 0], false, "2.1.0"), Version([3, 1, 0], false, "3.1.0")]).text == "3.1.0"
  {
    var c0, c1 := Version([1, 0, 0], false, "1.0.0"), Version([1, 2, 0], false, "1.2.0");
    var c2, c3 := Version([2, 1, 0], false, "2.1.0"), Version([3, 1, 0], false, "3.1.0");
    MaximumAppend([c0], c1);
    assert !KeyLe(c1.key, c0.key);
    MaximumAppend([c0, c1], c2);
    assert !KeyLe(c2.key, c1.key);
    MaximumAppend([c0, c1, c2], c3);
    assert !KeyLe(c3.key, c2.key);
  }

  /** A marker found at a known position of an already lower-case string. */
  lemma MarkedAt(v: string, marker: string, i: nat)
    requires forall k :: 0 <= k < |v| ==> !IsUpper(v[k])
    requires marker == "-beta" || marker == "-rc" || marker == "-preview" || marker == "-dev"
    requires i + |marker| <= |v| && v[i..i + |marker|] == marker
    ensures HasPrereleaseMarker(v)
  {
    LowerOfLower(v);
    assert OccursAt(Lower(v), marker, i);
  }

  /** With only marked versions nothing survives, whatever the parser does. */
  lemma OnlyPrereleasesFail(parse: Parser)
    ensures LatestStable(["1.0.0-beta", "1.1.0-rc", "2.0.0-dev"], parse) == Err(NoStableVersion)
  {
    MarkedAt("1.0.0-beta", "-beta", 5);
    MarkedAt("1.1.0-rc", "-rc", 5);
    MarkedAt("2.0.0-dev", "-dev", 5);
    assert Candidates(["1.0.0-beta"], parse) == [] by {
      CandidatesAppend([], "1.0.0-beta", parse);
    }
    assert Candidates(["1.0.0-beta", "1.1.0-rc"], parse) == [] by {
      CandidatesAppend(["1.0.0-beta"], "1.1.0-rc", parse);
    }
    assert Candidates(["1.0.0-beta", "1.1.0-rc", "2.0.0-dev"], parse) == [] by {
      CandidatesAppend(["1.0.0-beta", "1.1.0-rc"], "2.0.0-dev", parse);
    }
  }
}
