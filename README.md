# Renoise tool release helper, modelled in Dafny

The program prepares a release of a Renoise scripting tool from the tool's
working directory. It runs these steps in order:

1. It checks that `manifest.xml` exists.
2. It reads the tool's `Id` and `Version` from the manifest with a streaming
   XML reader.
3. It parses the version strictly as a semantic version. It adds one to
   `minor`, and resets `patch` to zero when the version has neither a
   pre-release nor build metadata.
4. It rewrites every `<Version>old</Version>` in the manifest text to the new
   version and writes the manifest back.
5. It fills `release/<Id>.xrnx` with these files:
   - every `.lua` file of the working directory;
   - at most one readme, named `README.md` in the folder;
   - the patched manifest.
6. It zips that folder.

The model has one module per part of `src/main.rs`:

- `Semver` (semver.dfy): the version record, the strict parser and the
  rendering. It proves the round trips between them and the rejection of
  short versions.
- `Bump` (bump.dfy): the in-place minor bump as a method, the function that
  specifies it, and the bump of the version text.
- `ManifestPatch` (patch.dfy): the manifest patch, modelled as Rust's
  `str::replace`. It proves that every occurrence is replaced, the text
  between occurrences is kept, and a text with no occurrence comes back
  unchanged.
- `Manifest` (manifest.dfy): the loop of `parse_manifest`. The loop is a
  method over the XML reader's events, proved equal to a recursive scan
  function. Lemmas cover the behaviours of the loop:
  - a reader error aborts the parse;
  - the event after a matching start tag is always consumed;
  - a later `Id` or `Version` overwrites an earlier one;
  - a missing `Id` is reported before a missing `Version`.
- `Sources` (sources.dfy): the loop of `copy_sources` as a method, proved
  equal to a function on the directory listing. Lemmas cover the `.lua`
  extension test and the readme preference.
- `Release` (release.dfy): one run of `main`, as a function and as a method
  that calls the methods above. Lemmas say:
  - what is written;
  - when something is written;
  - what the release folder holds.
- `Wrappers` (wrappers.dfy): `Option` and `Result`.

The model represents the program's inputs as values:

- The working directory is the list of its entry names, in listing order.
  A file exists when its name is in that list.
- The manifest is its text, together with the events the XML reader
  produces from that text. Text trimming is on, so whitespace-only text
  never appears as an event.
- Reading past the end of the events, or past an `Eof`, yields `Eof` again.
- A text node whose entity references do not unescape is the event
  `BadText`.

The model follows the code's behaviour on these points:

- The version parse is strict. A short version such as `1.2` is rejected,
  and nothing is padded.
- Every occurrence of the version element is replaced.
- Directory entries are taken in the order the host lists them.
- Exactly two readme names are recognised, `readme.md` first and then
  `README.md`, compared case-sensitively.
- The manifest is written back in place.

## Model

| member | source | states |
|---|---|---|
| Semver.Parse | src/main.rs:19 | `Version::parse`: `major.minor.patch`, then an optional `-pre`, then an optional `+build`. It has no contract of its own. `Semver.RenderParse` and `Semver.ParseRender` show that it accepts exactly the renderings of well-formed records, and `Semver.ShortVersionsRejected` shows that short versions fail |
| Semver.Render | src/main.rs:25 | `to_string` of the record: the three numbers joined by dots, then `-pre` and `+build` when they are non-empty. It has no contract of its own. `Semver.ParseRender` and `Semver.RenderInjective` characterise it |
| Semver.ParseRender | src/main.rs:19-25 | every well-formed version record renders to a text that the strict parse turns back into the same record |
| Semver.RenderParse | src/main.rs:19-25 | whatever the parse accepts is well formed, and rendering it gives back exactly the parsed text: the parse does no normalisation |
| Semver.RenderInjective | src/main.rs:25 | two records with the same rendered text are equal |
| Semver.DecimalRoundTrip | src/main.rs:25 | a number's decimal rendering has no leading zero and denotes that number |
| Semver.CanonicalRoundTrip | src/main.rs:19 | a numeral without a leading zero is the rendering of the number it denotes |
| Semver.ShortVersionsRejected | src/main.rs:19 | "1.2", "2", "0.9" and "1.2-beta" are rejected rather than padded |
| Semver.SplitFirst | src/main.rs:19 | the part before the first separator has no separator, and the two parts with the separator between them are the whole text |
| Bump.Bumped | src/main.rs:20-24 | `minor` goes up by one; `major`, `pre` and `build` are kept; `patch` is reset to 0 exactly when `pre` and `build` are both empty, and kept otherwise |
| Bump.BumpVersion | src/main.rs:19-24 | the field-by-field update of the parsed record yields exactly the record described by `Bump.Bumped` |
| Bump.BumpText | src/main.rs:19-25 | the new version text for the old one, or nothing when the parse rejects the old one. It has no contract of its own. `Bump.BumpTextSpec` characterises it |
| Bump.BumpedReparses | src/main.rs:19-25 | while `minor + 1` fits in 64 bits, the bumped record is well formed and its text parses back to it |
| Bump.BumpTextSpec | src/main.rs:19-25 | the bump of the text fails exactly when the parse fails; otherwise the new text differs from the old and parses to the old record with `minor + 1`, the same `major`, and `patch` reset only without pre-release and build |
| Bump.BumpPlainExample | src/main.rs:20-25 | "1.2.3" becomes "1.3.0" |
| Bump.BumpPreReleaseExample | src/main.rs:20-25 | "3.4.5-rc1" becomes "3.5.5-rc1": a pre-release keeps its patch |
| Bump.BumpBuildExample | src/main.rs:20-25 | "1.2.3+build5" becomes "1.3.3+build5": build metadata keeps its patch |
| Bump.BumpShortRejected | src/main.rs:19 | "1.2", "2" and "0.9" have no bumped text |
| ManifestPatch.ReplaceAll | src/main.rs:27-30 | `str::replace`: a greedy scan from left to right that replaces each non-overlapping occurrence. It has no contract of its own. `ManifestPatch.ReplaceByGaps`, `ManifestPatch.ReplaceAbsent` and `ManifestPatch.ReplaceSingle` characterise it |
| ManifestPatch.PatchManifest | src/main.rs:27-30 | the replacement of `<Version>old</Version>` by `<Version>new</Version>`. It has no contract of its own. `ManifestPatch.PatchEveryOccurrence`, `ManifestPatch.PatchAbsent` and `ManifestPatch.PatchSingle` characterise it |
| ManifestPatch.Gaps | src/main.rs:27-30 | the text before the first replaced occurrence is a prefix of the manifest |
| ManifestPatch.ReplaceSkipsPrefix | src/main.rs:27-30 | a prefix in which no occurrence starts is copied unchanged, and the rest is replaced on its own |
| ManifestPatch.ReplaceAbsent | src/main.rs:27-30 | a text in which the pattern does not occur comes back unchanged |
| ManifestPatch.ReplaceSame | src/main.rs:27-30 | replacing the pattern by itself changes nothing |
| ManifestPatch.ReplaceSingle | src/main.rs:27-30 | with exactly one occurrence, only that occurrence changes and the text around it is kept |
| ManifestPatch.ReplaceIsJoin | src/main.rs:27-30 | the replaced text is the gaps between the matched occurrences joined by the replacement |
| ManifestPatch.GapsHaveNoOccurrence | src/main.rs:27-30 | no gap between matched occurrences still contains the pattern |
| ManifestPatch.ReplaceByGaps | src/main.rs:27-30 | the gaps joined by the pattern give back the text; the replaced text is the same gaps joined by the replacement; no gap contains the pattern, so every occurrence is replaced |
| ManifestPatch.PatchAbsent | src/main.rs:27-30 | a manifest without `<Version>old</Version>` verbatim is written back unchanged |
| ManifestPatch.PatchSameVersion | src/main.rs:27-30 | patching a version to itself leaves the manifest unchanged |
| ManifestPatch.PatchSingle | src/main.rs:27-30 | with one version element, only its content changes to the new version |
| ManifestPatch.PatchEveryOccurrence | src/main.rs:27-30 | every version element is rewritten, and the text between the elements is kept |
| Manifest.Scan | src/main.rs:59-76 | the event loop, one step at a time: the loop fails only with a reader error or with a text that does not unescape |
| Manifest.ManifestFields | src/main.rs:52-82 | the result of `parse_manifest`: the loop, then the presence checks. It has no contract of its own. `Manifest.FieldsFromElements`, `Manifest.LaterIdWins`, `Manifest.LaterVersionWins` and `Manifest.ReadErrorAborts` characterise it |
| Manifest.Read | src/main.rs:60 | one read yields the next event and advances by one; `Eof` is returned at the end and again after an `Eof` |
| Manifest.Finish | src/main.rs:78-81 | the result is Ok exactly when both fields were found; a missing `Id` is reported whether or not `Version` is missing; `Version not found` only when `Id` is present |
| Manifest.ParseManifest | src/main.rs:52-82 | the event loop with its two mutable slots returns exactly `Manifest.ManifestFields` of the events |
| Manifest.ScanAppend | src/main.rs:59-76 | the loop over a prefix that ends between two steps, then over the rest, is the loop over the whole |
| Manifest.ReadErrorAborts | src/main.rs:73 | a reader error at a step boundary aborts the parse, whatever follows |
| Manifest.FollowerConsumed | src/main.rs:61-70 | after a start tag `Id` or `Version`, the next event is consumed even when it is not text (a start tag or a reader error is skipped) |
| Manifest.IdUntouched | src/main.rs:61-65 | events without a start tag `Id` leave the `Id` slot as it was |
| Manifest.LaterIdWins | src/main.rs:61-65 | a later `Id` overwrites an earlier one. After an `Id` text with no later `Id` start tag, the parse never reports `Id not found`, and a successful parse reports that text |
| Manifest.VersionUntouched | src/main.rs:66-70 | events without a start tag `Version` leave the `Version` slot as it was |
| Manifest.LaterVersionWins | src/main.rs:66-70 | a later `Version` overwrites an earlier one. After a `Version` text with no later `Version` start tag, the parse never reports `Version not found`, and a successful parse reports that text |
| Manifest.SlotsFromElements | src/main.rs:61-70 | every text put in a slot stood right after the start tag of that slot's element |
| Manifest.FieldsFromElements | src/main.rs:52-82 | a successful parse reports texts that stood right after `Id` and `Version` start tags |
| Manifest.ScanFailures | src/main.rs:59-76 | the loop fails only with a reader error or with a text that does not unescape, and only when such an event is present |
| Manifest.ManifestExamples | src/main.rs:52-82 | a typical manifest yields its id and version; an `Id` start followed directly by a `Version` start loses both; events after `Eof` are never read |
| Sources.Extension | src/main.rs:88 | `Path::extension` of a name. It is absent exactly for "..", for a name without a dot, and for a name whose only dot is its first character. Otherwise it is the text after the last dot, which holds no dot |
| Sources.IsLuaSource | src/main.rs:88 | the test that the extension is exactly `lua`. It has no contract of its own. `Sources.LuaIffSuffix` characterises it |
| Sources.LastDot | src/main.rs:88 | the index found holds a dot and no dot follows it; with no index, the name has no dot |
| Sources.LastDotAt | src/main.rs:88 | a dot with no dot after it is the one found |
| Sources.LuaIffSuffix | src/main.rs:88 | the extension test holds exactly when the name is longer than ".lua" and ends in ".lua", case-sensitively |
| Sources.NotLuaExamples | src/main.rs:88 | "main.lua" and "..lua" pass; "A.LUA", "x.lua.bak", ".lua", "lua", the readmes and the manifest do not |
| Sources.LuaCopies | src/main.rs:85-92 | every `.lua` entry is copied under its own name, and only those entries are copied |
| Sources.ReadmeCopy | src/main.rs:93-99 | a readme is copied exactly when `readme.md` or `README.md` exists. The target is always `README.md`. The source is `readme.md` when it exists, and `README.md` when only that one exists |
| Sources.CopySources | src/main.rs:84-101 | the loop over the entries followed by the readme choice produces exactly `Sources.SourceCopies` of the entries |
| Sources.LuaCopiesDistinct | src/main.rs:85-92 | distinct entries give `.lua` copies with distinct target names |
| Sources.SourceCopies | src/main.rs:84-101 | everything `copy_sources` copies: the `.lua` copies in listing order, then the readme. It has no contract of its own. `Sources.SourceCopiesSpec` and `Sources.SourceCopiesDistinct` characterise it |
| Sources.SourceCopiesDistinct | src/main.rs:84-101 | with distinct entry names, the `.lua` copies and the readme never write the same name in the folder |
| Sources.NoManifestCopy | src/main.rs:84-101 | no copy made by `copy_sources` is named `manifest.xml`, so the later manifest copy cannot clash with it |
| Sources.SourceCopiesSpec | src/main.rs:84-101 | a `.lua` name is copied iff it is an entry; every copy other than the readme is a `.lua` entry under its own name; at most one copy is named `README.md`; the readme preference holds |
| Release.ReleaseRun | src/main.rs:9-44 | the run as a function: a missing manifest, a failed manifest parse or a rejected version ends it with nothing written; otherwise the patched manifest is written and the folder is filled. It has no contract of its own. `Release.SuccessfulRun`, `Release.WrittenOnlyOnSuccess` and `Release.RejectedVersionFails` characterise it |
| Release.FolderName | src/main.rs:36 | the folder name `<id>.xrnx`. It has no contract of its own. `Release.SuccessfulRun` states the folder name of a successful run |
| Release.RunRelease | src/main.rs:9-44 | the run, step by step through the methods above, equals `Release.ReleaseRun`, and it writes the manifest exactly when it succeeds |
| Release.WrittenOnlyOnSuccess | src/main.rs:10-31 | the manifest is written back exactly when the run gets past every check, and the folder's manifest is the text written |
| Release.RejectedVersionFails | src/main.rs:19 | a version the parse rejects ends the run with that version as the error, before anything is written |
| Release.FolderCopiesDistinct | src/main.rs:43-44 | with distinct entry names, no two files copied into the release folder share a name |
| Release.SuccessfulRun | src/main.rs:17-44 | when `manifest.xml` exists, the parse finds both fields, and the version parses, the run succeeds. The folder is `<id>.xrnx`, and the written manifest is the old text with the version elements bumped. The copies are the sources, then the readme, then `manifest.xml`; with distinct entry names, they have distinct names |
| Release.SingleElementPatched | src/main.rs:25-31 | with one version element, the written manifest differs from the old one only in that element's content, and the new version differs from the old |
| Release.StaleManifest | src/main.rs:27-31 | when the run gets past every check but the manifest lacks `<Version>old</Version>` verbatim, the text written back is the old text unchanged |
| Release.ShortVersionRun | src/main.rs:19 | a manifest with version "0.9" fails the run with nothing written |

## Left out

- `zip_dir` (src/main.rs:103-120) is not modelled. It runs the external `zip` program. The output path it receives is the same path as the release folder (lines 37 and 46).
- File system effects are not modelled: creating and removing `release/<id>.xrnx`, the copies themselves, and failures of reads, writes and copies. A failure after the manifest is written (line 31) would leave the bumped manifest behind.
- The XML reader's tokenisation of the text is not modelled. The events are an input beside the text, not derived from it.
- The semantic-version grammar is simplified. It does not reject leading zeros in numeric pre-release identifiers. It does not model the crate's error messages or the crate's ordering of versions.
- Bump.Bumped: does not model overflow of `minor` past 64 bits. The program panics in a debug build and wraps in a release build.
- Bump.BumpTextSpec: states its properties only while `minor + 1` fits in 64 bits. This is the same overflow.
- Release.SingleElementPatched: requires `minor + 1` to fit in 64 bits. This is the same overflow.
- The listing is not modelled in detail. Entries are names only, so a directory named `x.lua` is treated as a file. Errors for individual entries (line 86) are not modelled.
- Case-insensitive file systems are not modelled. On them, `readme.md` and `README.md` name the same file.
- Messages printed to the terminal and the process exit code are not modelled.
