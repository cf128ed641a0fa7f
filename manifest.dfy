/**
 * Extraction of the tool's identifier and version from the manifest.
 *
 * The XML reader is given as the sequence of events it produces (with text
 * trimming on, so whitespace-only text never appears). Reading past the end
 * of the sequence, or past an `Eof`, yields `Eof` again. The loop fills two
 * optional slots: after a `Start` of an element named `Id` or `Version`, the
 * next event is always consumed, and only a `Text` fills the slot.
 */
module Manifest {
  import opened Wrappers

  datatype Event =
    | Start(name: string)   // an opening tag, by its qualified name
    | Text(content: string) // a text node, already unescaped
    | BadText               // a text node whose entity references do not unescape
    | Other                 // any other event: end tags, empty elements, comments, declarations
    | ReadError             // the reader reports malformed markup
    | Eof

  datatype ManifestError = Malformed | BadEscape | MissingId | MissingVersion

  datatype Slots = Slots(id: Option<string>, version: Option<string>)

  const Empty := Slots(None, None)

  /** Where a scan of the events ends. */
  datatype Scanned =
    | Exhausted(slots: Slots) // every event was consumed, at a step boundary
    | Stopped(slots: Slots)   // the reader reported `Eof`
    | Failed(error: ManifestError)

  predicate IsField(name: string) {
    name == "Id" || name == "Version"
  }

  /** The slot update for the text of the field `name`. */
  function Fill(s: Slots, name: string, text: string): Slots
    requires IsField(name)
  {
    if name == "Id" then s.(id := Some(text)) else s.(version := Some(text))
  }

  /** The loop of `parse_manifest`, one top-level event (and its follower) at a time. */
  function Scan(events: seq<Event>, s: Slots): (r: Scanned)
    ensures r.Failed? ==> r.error == Malformed || r.error == BadEscape
    decreases |events|
  {
    if events == [] then Exhausted(s)
    else match events[0]
      case Eof => Stopped(s)
      case ReadError => Failed(Malformed)
      case Start(name) =>
        if !IsField(name) then Scan(events[1..], s)
        else if |events| == 1 then Stopped(s)
        else (match events[1]
          case Text(t) => Scan(events[2..], Fill(s, name, t))
          case BadText => Failed(BadEscape)
          case Eof => Stopped(s)
          case _ => Scan(events[2..], s))
      case _ => Scan(events[1..], s)
  }

  /** The checks after the loop: a missing `Id` is reported before a missing `Version`. */
  function Finish(s: Slots): (r: Result<(string, string), ManifestError>)
    ensures r.Ok? <==> s.id.Some? && s.version.Some?
    ensures r.Ok? ==> r.value == (s.id.value, s.version.value)
    ensures r == Err(MissingId) <==> s.id.None?
    ensures r == Err(MissingVersion) <==> s.id.Some? && s.version.None?
  {
    if s.id.None? then Err(MissingId)
    else if s.version.None? then Err(MissingVersion)
    else Ok((s.id.value, s.version.value))
  }

  function Settle(sc: Scanned): Result<(string, string), ManifestError> {
    match sc
    case Exhausted(s) => Finish(s)
    case Stopped(s) => Finish(s)
    case Failed(e) => Err(e)
  }

  /** The result of `parse_manifest` on the reader's events. */
  function ManifestFields(events: seq<Event>): Result<(string, string), ManifestError> {
    Settle(Scan(events, Empty))
  }

  /** One read: the next event and the position after it; `Eof` is sticky. */
  function Read(events: seq<Event>, pos: nat): (r: (Event, nat))
    requires pos <= |events|
    ensures pos <= r.1 <= |events|
    ensures r.0 != Eof ==> pos < |events| && r.0 == events[pos] && r.1 == pos + 1
    ensures r.0 == Eof ==> r.1 == |events| && (pos < |events| ==> events[pos] == Eof)
  {
    if pos == |events| || events[pos] == Eof then (Eof, |events|) else (events[pos], pos + 1)
  }

  /** `parse_manifest`: the event loop with its two mutable slots, then the presence checks. */
  method ParseManifest(events: seq<Event>) returns (r: Result<(string, string), ManifestError>)
    ensures r == ManifestFields(events)
  {
    var pos := 0;
    var id: Option<string> := None;
    var version: Option<string> := None;
    while true
      invariant pos <= |events|
      invariant Settle(Scan(events[pos..], Slots(id, version))) == ManifestFields(events)
      decreases |events| - pos
    {
      var (event, next) := Read(events, pos);
      ghost var rest := events[pos..];
      pos := next;
      match event {
        case Start(name) =>
          if name == "Id" || name == "Version" {
            var (follower, after) := Read(events, pos);
            pos := after;
            if follower.Text? {
              assert events[pos..] == rest[2..];
              if name == "Id" {
                id := Some(follower.content);
              } else {
                version := Some(follower.content);
              }
            } else if follower.BadText? {
              return Err(BadEscape);
            } else if follower != Eof {
              assert events[pos..] == rest[2..];
            }
          }
        case Eof =>
          break;
        case ReadError =>
          return Err(Malformed);
        case _ =>
      }
    }
    r := Finish(Slots(id, version));
  }

  /** Scanning a prefix that ends at a step boundary, then the rest, is scanning the whole. */
  lemma {:induction false} ScanAppend(prefix: seq<Event>, rest: seq<Event>, s: Slots)
    requires Scan(prefix, s).Exhausted?
    ensures Scan(prefix + rest, s) == Scan(rest, Scan(prefix, s).slots)
    decreases |prefix|
  {
    var whole := prefix + rest;
    if prefix == [] {
      assert whole == rest;
    } else if prefix[0].Start? && IsField(prefix[0].name) {
      var next := if prefix[1].Text? then Fill(s, prefix[0].name, prefix[1].content) else s;
      assert whole[0] == prefix[0] && whole[1] == prefix[1];
      assert whole[2..] == prefix[2..] + rest;
      ScanAppend(prefix[2..], rest, next);
    } else {
      assert whole[0] == prefix[0];
      assert whole[1..] == prefix[1..] + rest;
      ScanAppend(prefix[1..], rest, s);
    }
  }

  /** A reader error at a step boundary aborts at once, whatever follows. */
  lemma ReadErrorAborts(prefix: seq<Event>, rest: seq<Event>)
    requires Scan(prefix, Empty).Exhausted?
    ensures ManifestFields(prefix + [ReadError] + rest) == Err(Malformed)
  {
    ScanAppend(prefix, [ReadError] + rest, Empty);
    assert prefix + [ReadError] + rest == prefix + ([ReadError] + rest);
  }

  /**
   * After a matching `Start`, the next event is consumed even when it is not
   * text: a following `Start("Version")` or reader error is skipped.
   */
  lemma FollowerConsumed(prefix: seq<Event>, name: string, follower: Event, rest: seq<Event>)
    requires Scan(prefix, Empty).Exhausted?
    requires IsField(name)
    requires !follower.Text? && !follower.BadText? && follower != Eof
    ensures ManifestFields(prefix + [Start(name), follower] + rest)
      == Settle(Scan(rest, Scan(prefix, Empty).slots))
  {
    var tail := [Start(name), follower] + rest;
    ScanAppend(prefix, tail, Empty);
    assert prefix + [Start(name), follower] + rest == prefix + tail;
    assert tail[2..] == rest;
  }

  lemma {:induction false} IdUntouched(events: seq<Event>, s: Slots)
    requires forall k :: 0 <= k < |events| ==> events[k] != Start("Id")
    ensures !Scan(events, s).Failed? ==> Scan(events, s).slots.id == s.id
    decreases |events|
  {
    if events == [] || events[0] == Eof || events[0] == ReadError {
    } else if events[0].Start? && IsField(events[0].name) {
      if |events| > 1 {
        var next := if events[1].Text? then Fill(s, events[0].name, events[1].content) else s;
        IdUntouched(events[2..], next);
      }
    } else {
      IdUntouched(events[1..], s);
    }
  }

  /**
   * A later `Id` element overwrites an earlier one: if no `Start("Id")`
   * follows it, the last `Id` text at a step boundary is the one reported,
   * and the parse never ends in `Id not found`.
   */
  lemma LaterIdWins(prefix: seq<Event>, id: string, rest: seq<Event>)
    requires Scan(prefix, Empty).Exhausted?
    requires forall k :: 0 <= k < |rest| ==> rest[k] != Start("Id")
    ensures ManifestFields(prefix + [Start("Id"), Text(id)] + rest) != Err(MissingId)
    ensures ManifestFields(prefix + [Start("Id"), Text(id)] + rest).Ok? ==>
      ManifestFields(prefix + [Start("Id"), Text(id)] + rest).value.0 == id
  {
    var tail := [Start("Id"), Text(id)] + rest;
    ScanAppend(prefix, tail, Empty);
    assert prefix + [Start("Id"), Text(id)] + rest == prefix + tail;
    assert tail[2..] == rest;
    var s := Fill(Scan(prefix, Empty).slots, "Id", id);
    IdUntouched(rest, s);
  }

  lemma {:induction false} VersionUntouched(events: seq<Event>, s: Slots)
    requires forall k :: 0 <= k < |events| ==> events[k] != Start("Version")
    ensures !Scan(events, s).Failed? ==> Scan(events, s).slots.version == s.version
    decreases |events|
  {
    if events == [] || events[0] == Eof || events[0] == ReadError {
    } else if events[0].Start? && IsField(events[0].name) {
      if |events| > 1 {
        var next := if events[1].Text? then Fill(s, events[0].name, events[1].content) else s;
        VersionUntouched(events[2..], next);
      }
    } else {
      VersionUntouched(events[1..], s);
    }
  }

  /**
   * A later `Version` element overwrites an earlier one: if no
   * `Start("Version")` follows it, the last `Version` text at a step boundary
   * is the one reported, and the parse never ends in `Version not found`.
   */
  lemma LaterVersionWins(prefix: seq<Event>, version: string, rest: seq<Event>)
    requires Scan(prefix, Empty).Exhausted?
    requires forall k :: 0 <= k < |rest| ==> rest[k] != Start("Version")
    ensures ManifestFields(prefix + [Start("Version"), Text(version)] + rest) != Err(MissingVersion)
    ensures ManifestFields(prefix + [Start("Version"), Text(version)] + rest).Ok? ==>
      ManifestFields(prefix + [Start("Version"), Text(version)] + rest).value.1 == version
  {
    var tail := [Start("Version"), Text(version)] + rest;
    ScanAppend(prefix, tail, Empty);
    assert prefix + [Start("Version"), Text(version)] + rest == prefix + tail;
    assert tail[2..] == rest;
    var s := Fill(Scan(prefix, Empty).slots, "Version", version);
    VersionUntouched(rest, s);
  }

  /** The text put in a slot always comes from a `Text` right after the matching `Start`. */
  lemma {:induction false} SlotsFromElements(events: seq<Event>, s: Slots)
    ensures !Scan(events, s).Failed? ==>
      var out := Scan(events, s).slots;
      && (out.id == s.id || (out.id.Some? && exists k :: 0 <= k < |events| - 1 && events[k] == Start("Id") && events[k + 1] == Text(out.id.value)))
      && (out.version == s.version || (out.version.Some? && exists k :: 0 <= k < |events| - 1 && events[k] == Start("Version") && events[k + 1] == Text(out.version.value)))
    decreases |events|
  {
    if events == [] || events[0] == Eof || events[0] == ReadError {
    } else if events[0].Start? && IsField(events[0].name) {
      if |events| > 1 {
        var next := if events[1].Text? then Fill(s, events[0].name, events[1].content) else s;
        SlotsFromElements(events[2..], next);
        var tail := events[2..];
        assert forall k :: 0 <= k < |tail| ==> tail[k] == events[k + 2];
      }
    } else {
      SlotsFromElements(events[1..], s);
      var tail := events[1..];
      assert forall k :: 0 <= k < |tail| ==> tail[k] == events[k + 1];
    }
  }

  /** A successful parse reports texts that stood right after `Start("Id")` and `Start("Version")`. */
  lemma FieldsFromElements(events: seq<Event>)
    ensures ManifestFields(events).Ok? ==>
      var (id, version) := ManifestFields(events).value;
      && (exists k :: 0 <= k < |events| - 1 && events[k] == Start("Id") && events[k + 1] == Text(id))
      && (exists k :: 0 <= k < |events| - 1 && events[k] == Start("Version") && events[k + 1] == Text(version))
  {
    SlotsFromElements(events, Empty);
  }

  /** Errors come only from the reader or an undecodable text; otherwise the presence checks decide. */
  lemma {:induction false} ScanFailures(events: seq<Event>, s: Slots)
    ensures Scan(events, s) == Failed(Malformed) ==> ReadError in events
    ensures Scan(events, s) == Failed(BadEscape) ==> BadText in events
    ensures !Scan(events, s).Failed? || Scan(events, s) == Failed(Malformed) || Scan(events, s) == Failed(BadEscape)
    decreases |events|
  {
    if events == [] || events[0] == Eof || events[0] == ReadError {
    } else if events[0].Start? && IsField(events[0].name) {
      if |events| > 1 {
        var next := if events[1].Text? then Fill(s, events[0].name, events[1].content) else s;
        ScanFailures(events[2..], next);
      }
    } else {
      ScanFailures(events[1..], s);
    }
  }

  /** A typical manifest, and one whose `Id` start is directly followed by the `Version` start. */
  lemma ManifestExamples()
    ensures ManifestFields([Other, Start("RenoiseScriptingTool"), Start("Id"), Text("com.me.Tool"), Other,
                            Start("Version"), Text("1.2.3"), Other, Other, Eof]) == Ok(("com.me.Tool", "1.2.3"))
    ensures ManifestFields([Start("Id"), Start("Version"), Text("1.2.3"), Eof]) == Err(MissingId)
    ensures ManifestFields([Start("Id"), Text("x"), Eof, Start("Version"), Text("1.2.3")]) == Err(MissingVersion)
  {
  }
}
