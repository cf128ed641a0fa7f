/**
 * One release run: check that `manifest.xml` is present, read the
 * identifier and version from it, bump the version, write the patched
 * manifest back, and fill the folder `release/<id>.xrnx` with the sources,
 * the readme and the patched manifest. Every failure the model knows of
 * happens before the manifest is written back.
 */
module Release {
  import opened Wrappers
  import opened Semver
  import opened Bump
  import opened ManifestPatch
  import opened Manifest
  import opened Sources

  datatype RunError = ManifestNotFound | BadManifest(error: ManifestError) | InvalidVersion(version: string)

  /** The release folder: its name, the copies made into it, and the text of its `manifest.xml`. */
  datatype ReleaseFolder = ReleaseFolder(name: string, copies: seq<Copy>, manifest: string)

  /** What a run leaves behind: the manifest text written back, if any, and the outcome. */
  datatype Run = Run(written: Option<string>, outcome: Result<ReleaseFolder, RunError>)

  const ManifestName: string := "manifest.xml"

  /** The release folder's name. */
  function FolderName(id: string): string {
    id + ".xrnx"
  }

  /**
   * A run over the working directory's entry names, the manifest's text and
   * the events the XML reader produces from that text.
   */
  function ReleaseRun(entries: seq<string>, text: string, events: seq<Event>): Run {
    if ManifestName !in entries then Run(None, Err(ManifestNotFound))
    else match ManifestFields(events)
      case Err(e) => Run(None, Err(BadManifest(e)))
      case Ok((id, current)) =>
        match Parse(current)
        case None => Run(None, Err(InvalidVersion(current)))
        case Some(v) =>
          var patched := PatchManifest(text, current, Render(Bumped(v)));
          var copies := SourceCopies(entries) + [Copy(ManifestName, ManifestName)];
          Run(Some(patched), Ok(ReleaseFolder(FolderName(id), copies, patched)))
  }

  /** The run step by step, with the imperative parts as methods. */
  method RunRelease(entries: seq<string>, text: string, events: seq<Event>) returns (run: Run)
    ensures run == ReleaseRun(entries, text, events)
    ensures run.written.Some? <==> run.outcome.Ok?
  {
    if ManifestName !in entries {
      return Run(None, Err(ManifestNotFound));
    }
    var fields := ParseManifest(events);
    if fields.Err? {
      return Run(None, Err(BadManifest(fields.error)));
    }
    var (id, current) := fields.value;
    var parsed := Parse(current);
    if parsed.None? {
      return Run(None, Err(InvalidVersion(current)));
    }
    var version := BumpVersion(parsed.value);
    var manifest := PatchManifest(text, current, Render(version));
    var copies := CopySources(entries);
    copies := copies + [Copy(ManifestName, ManifestName)];
    run := Run(Some(manifest), Ok(ReleaseFolder(FolderName(id), copies, manifest)));
  }

  /** The manifest is written back exactly when the run succeeds, and the folder gets that text. */
  lemma WrittenOnlyOnSuccess(entries: seq<string>, text: string, events: seq<Event>)
    ensures var run := ReleaseRun(entries, text, events);
      && (run.written.Some? <==> run.outcome.Ok?)
      && (run.outcome.Ok? ==> run.outcome.value.manifest == run.written.value)
  {
  }

  /** A version the strict parse rejects fails the run before anything is written. */
  lemma RejectedVersionFails(entries: seq<string>, text: string, events: seq<Event>)
    requires ManifestName in entries
    requires ManifestFields(events).Ok? && Parse(ManifestFields(events).value.1).None?
    ensures ReleaseRun(entries, text, events) == Run(None, Err(InvalidVersion(ManifestFields(events).value.1)))
  {
  }

  /**
   * The folder's copies: the sources and readme, then the manifest. With
   * distinct entry names, no two of them write the same name.
   */
  lemma FolderCopiesDistinct(entries: seq<string>)
    requires forall i, j :: 0 <= i < j < |entries| ==> entries[i] != entries[j]
    ensures DistinctTargets(SourceCopies(entries) + [Copy(ManifestName, ManifestName)])
  {
    var copies := SourceCopies(entries);
    SourceCopiesDistinct(entries);
    NoManifestCopy(entries);
    forall k | 0 <= k < |copies|
      ensures copies[k].target != ManifestName
    {
      assert copies[k] in copies;
    }
    AppendFreshTarget(copies, Copy(ManifestName, ManifestName));
  }

  /**
   * A successful run: the folder is `<id>.xrnx`; the written manifest is the
   * old text with every `<Version>old</Version>` replaced by the bumped
   * version's element; the copies are the sources and readme followed by the
   * manifest, and no two of them share a target name.
   */
  lemma SuccessfulRun(entries: seq<string>, text: string, events: seq<Event>)
    requires forall i, j :: 0 <= i < j < |entries| ==> entries[i] != entries[j]
    requires ManifestName in entries
    requires ManifestFields(events).Ok? && Parse(ManifestFields(events).value.1).Some?
    ensures ReleaseRun(entries, text, events).outcome.Ok?
    ensures var (id, current) := ManifestFields(events).value;
      var run := ReleaseRun(entries, text, events);
      var folder := run.outcome.value;
      && BumpText(current).Some?
      && folder.name == id + ".xrnx"
      && run.written == Some(PatchManifest(text, current, BumpText(current).value))
      && folder.copies == SourceCopies(entries) + [Copy("manifest.xml", "manifest.xml")]
      && DistinctTargets(folder.copies)
  {
    FolderCopiesDistinct(entries);
  }

  /**
   * When the manifest holds the version element once, the written text
   * differs from the old one only inside that element, and the new version
   * differs from the old.
   */
  lemma SingleElementPatched(entries: seq<string>, before: string, after: string, events: seq<Event>)
    requires ManifestName in entries
    requires ManifestFields(events).Ok?
    requires var current := ManifestFields(events).value.1;
      && Parse(current).Some? && Parse(current).value.minor + 1 < U64_BOUND
      && forall i :: OccursAt(before + Element(current) + after, Element(current), i) ==> i == |before|
    ensures var current := ManifestFields(events).value.1;
      var next := BumpText(current).value;
      && next != current
      && ReleaseRun(entries, before + Element(current) + after, events).written
         == Some(before + "<Version>" + next + "</Version>" + after)
  {
    var current := ManifestFields(events).value.1;
    BumpTextSpec(current);
    PatchSingle(before, after, current, BumpText(current).value);
  }

  /** When the manifest lacks `<Version>old</Version>` verbatim, the run writes it back unchanged. */
  lemma StaleManifest(entries: seq<string>, text: string, events: seq<Event>)
    requires ManifestName in entries
    requires ManifestFields(events).Ok? && Parse(ManifestFields(events).value.1).Some?
    requires !Contains(text, Element(ManifestFields(events).value.1))
    ensures ReleaseRun(entries, text, events).written == Some(text)
  {
    var current := ManifestFields(events).value.1;
    PatchAbsent(text, current, BumpText(current).value);
  }

  /** A manifest whose version is "0.9" fails the run: there is no padding to "0.9.0". */
  lemma ShortVersionRun()
    ensures ReleaseRun(["a.lua", "manifest.xml"], "<Version>0.9</Version>",
                       [Start("Id"), Text("MyTool"), Other, Start("Version"), Text("0.9"), Other, Eof])
         == Run(None, Err(InvalidVersion("0.9")))
  {
    var events := [Start("Id"), Text("MyTool"), Other, Start("Version"), Text("0.9"), Other, Eof];
    assert ManifestFields(events) == Ok(("MyTool", "0.9"));
    ShortVersionsRejected();
    RejectedVersionFails(["a.lua", "manifest.xml"], "<Version>0.9</Version>", events);
  }
}
