/**
 * The minor-version bump of a release run: parse the manifest's version
 * strictly, add one to `minor`, reset `patch` only when the version has
 * neither a pre-release nor build metadata, and render the record again.
 */
module Bump {
  import opened Wrappers
  import opened Semver

  /** The record after `minor += 1` and the conditional reset of `patch`. */
  function Bumped(v: Version): (r: Version)
    ensures r.major == v.major && r.minor == v.minor + 1
    ensures r.pre == v.pre && r.build == v.build
    ensures r.patch == (if v.pre == [] && v.build == [] then 0 else v.patch)
  {
    var r := v.(minor := v.minor + 1);
    if r.build == [] && r.pre == [] then r.(patch := 0) else r
  }

  /** The in-place update of the parsed record, field by field. */
  method BumpVersion(version: Version) returns (bumped: Version)
    ensures bumped.major == version.major && bumped.minor == version.minor + 1
    ensures bumped.pre == version.pre && bumped.build == version.build
    ensures bumped.patch == (if version.pre == [] && version.build == [] then 0 else version.patch)
    ensures bumped == Bumped(version)
  {
    bumped := version;
    bumped := bumped.(minor := bumped.minor + 1);
    if bumped.build == [] && bumped.pre == [] {
      bumped := bumped.(patch := 0);
    }
  }

  /** The new version text for the current one, or `None` when the strict parse rejects it. */
  function BumpText(current: string): Option<string> {
    match Parse(current)
    case None => None
    case Some(v) => Some(Render(Bumped(v)))
  }

  /** The bumped record is still well formed (while `minor` stays in range) and its text parses back to it. */
  lemma BumpedReparses(v: Version)
    requires WellFormed(v) && v.minor + 1 < U64_BOUND
    ensures WellFormed(Bumped(v))
    ensures Parse(Render(Bumped(v))) == Some(Bumped(v))
  {
    ParseRender(Bumped(v));
  }

  /**
   * The text-level bump: it fails exactly when the strict parse fails, and
   * otherwise yields a different text that parses to the current record with
   * `minor` one higher, `major`, `pre` and `build` kept, and `patch` reset
   * only when there is no pre-release and no build metadata.
   */
  lemma BumpTextSpec(current: string)
    ensures BumpText(current).None? <==> Parse(current).None?
    ensures Parse(current).Some? && Parse(current).value.minor + 1 < U64_BOUND ==>
      var v := Parse(current).value;
      var t := BumpText(current).value;
      && t != current
      && Parse(t) == Some(Bumped(v))
      && Parse(t).value.minor == v.minor + 1
      && Parse(t).value.major == v.major
      && (v.pre == [] && v.build == [] ==> Parse(t).value.patch == 0)
      && (v.pre != [] || v.build != [] ==> Parse(t).value.patch == v.patch)
  {
    if Parse(current).Some? && Parse(current).value.minor + 1 < U64_BOUND {
      var v := Parse(current).value;
      RenderParse(current, v);
      BumpedReparses(v);
      if Render(Bumped(v)) == current {
        RenderInjective(v, Bumped(v));
      }
    }
  }

  /** A plain version: `minor` goes up and `patch` is reset. */
  lemma BumpPlainExample()
    ensures BumpText("1.2.3") == Some("1.3.0")
  {
    ParseRender(Version(1, 2, 3, "", ""));
    assert Render(Version(1, 2, 3, "", "")) == "1.2.3";
    assert Render(Version(1, 3, 0, "", "")) == "1.3.0";
  }

  /** A pre-release keeps its `patch`. */
  lemma BumpPreReleaseExample()
    ensures BumpText("3.4.5-rc1") == Some("3.5.5-rc1")
  {
    ParseRender(Version(3, 4, 5, "rc1", ""));
    assert Render(Version(3, 4, 5, "rc1", "")) == "3.4.5-rc1";
    assert Render(Version(3, 5, 5, "rc1", "")) == "3.5.5-rc1";
  }

  /** Build metadata keeps its `patch` too. */
  lemma BumpBuildExample()
    ensures BumpText("1.2.3+build5") == Some("1.3.3+build5")
  {
    var v := Version(1, 2, 3, "", "build5");
    assert Identifiers(v.build);
    assert Render(v) == "1.2.3+build5" by {
      assert CoreText(1, 2, 3) == "1.2.3";
    }
    ParseRender(v);
    assert Render(Bumped(v)) == "1.3.3+build5" by {
      assert Bumped(v) == Version(1, 3, 3, "", "build5");
      assert CoreText(1, 3, 3) == "1.3.3";
    }
  }

  /** Short versions are not padded: there is nothing to bump. */
  lemma BumpShortRejected()
    ensures BumpText("1.2") == None && BumpText("2") == None && BumpText("0.9") == None
  {
    ShortVersionsRejected();
  }
}
