/**
 * The textual patch of the manifest: Rust's `str::replace` of the element
 * `<Version>old</Version>` by `<Version>new</Version>`. Every non-overlapping
 * occurrence is replaced, scanning left to right; the text between them is
 * kept byte for byte, and a text without an occurrence comes back unchanged.
 */
module ManifestPatch {

  /** `pat` occurs in `s` starting at index `i`. */
  predicate OccursAt(s: string, pat: string, i: int) {
    0 <= i && i + |pat| <= |s| && s[i..i + |pat|] == pat
  }

  predicate Contains(s: string, pat: string) {
    exists i | 0 <= i <= |s| :: OccursAt(s, pat, i)
  }

  /** `str::replace(pat, rep)` for a non-empty pattern. */
  function ReplaceAll(s: string, pat: string, rep: string): string
    requires pat != []
    decreases |s|
  {
    if |s| < |pat| then s
    else if s[..|pat|] == pat then rep + ReplaceAll(s[|pat|..], pat, rep)
    else [s[0]] + ReplaceAll(s[1..], pat, rep)
  }

  /**
   * The pieces of `s` that lie between the occurrences `ReplaceAll` matches,
   * from left to right. The first piece is the part of `s` before the first
   * match, so it is a prefix of `s`.
   */
  function Gaps(s: string, pat: string): (g: seq<string>)
    requires pat != []
    ensures |g| >= 1 && g[0] <= s
    decreases |s|
  {
    if |s| < |pat| then [s]
    else if s[..|pat|] == pat then [[]] + Gaps(s[|pat|..], pat)
    else
      var rest := Gaps(s[1..], pat);
      [[s[0]] + rest[0]] + rest[1..]
  }

  /** The pieces with `sep` between each two neighbours. */
  function Join(pieces: seq<string>, sep: string): string
    requires |pieces| >= 1
  {
    if |pieces| == 1 then pieces[0] else pieces[0] + sep + Join(pieces[1..], sep)
  }

  function Element(version: string): string {
    "<Version>" + version + "</Version>"
  }

  /** The manifest text after the version element's content is changed from `current` to `next`. */
  function PatchManifest(text: string, current: string, next: string): string {
    ReplaceAll(text, Element(current), Element(next))
  }

  lemma ShiftOccurrence(s: string, pat: string, k: nat, i: int)
    requires k <= |s|
    requires OccursAt(s[k..], pat, i)
    ensures OccursAt(s, pat, i + k)
  {
    assert s[k..][i..i + |pat|] == s[i + k..i + k + |pat|];
  }

  /**
   * Replacing skips a prefix in which no occurrence starts: that prefix is
   * copied unchanged and the rest is replaced on its own.
   */
  lemma {:induction false} ReplaceSkipsPrefix(s: string, pat: string, rep: string, k: nat)
    requires pat != [] && k <= |s|
    requires forall i :: 0 <= i < k ==> !OccursAt(s, pat, i)
    ensures ReplaceAll(s, pat, rep) == s[..k] + ReplaceAll(s[k..], pat, rep)
    decreases k
  {
    if k == 0 {
      assert s[..0] == [] && s[0..] == s;
    } else if |s| < |pat| {
      assert s[..k] + s[k..] == s;
    } else {
      assert !OccursAt(s, pat, 0);
      forall i | 0 <= i < k - 1
        ensures !OccursAt(s[1..], pat, i)
      {
        if OccursAt(s[1..], pat, i) {
          ShiftOccurrence(s, pat, 1, i);
        }
      }
      ReplaceSkipsPrefix(s[1..], pat, rep, k - 1);
      assert s[1..][..k - 1] == s[1..k] && s[1..][k - 1..] == s[k..];
      assert [s[0]] + s[1..k] == s[..k];
    }
  }

  /** A text in which the pattern does not occur comes back unchanged. */
  lemma ReplaceAbsent(s: string, pat: string, rep: string)
    requires pat != [] && !Contains(s, pat)
    ensures ReplaceAll(s, pat, rep) == s
  {
    ReplaceSkipsPrefix(s, pat, rep, |s|);
    assert s[..|s|] == s && s[|s|..] == [];
  }

  /** Replacing the pattern by itself changes nothing. */
  lemma {:induction false} ReplaceSame(s: string, pat: string)
    requires pat != []
    ensures ReplaceAll(s, pat, pat) == s
    decreases |s|
  {
    if |s| < |pat| {
    } else if s[..|pat|] == pat {
      ReplaceSame(s[|pat|..], pat);
      assert s[..|pat|] + s[|pat|..] == s;
    } else {
      ReplaceSame(s[1..], pat);
      assert [s[0]] + s[1..] == s;
    }
  }

  /**
   * With exactly one occurrence, at the end of `before`, the result is
   * `before + rep + after`: everything outside the occurrence is kept.
   */
  lemma ReplaceSingle(before: string, pat: string, after: string, rep: string)
    requires pat != []
    requires forall i :: OccursAt(before + pat + after, pat, i) ==> i == |before|
    ensures ReplaceAll(before + pat + after, pat, rep) == before + rep + after
  {
    var s := before + pat + after;
    ReplaceSkipsPrefix(s, pat, rep, |before|);
    var tail := s[|before|..];
    assert tail == pat + after;
    assert tail[..|pat|] == pat && tail[|pat|..] == after;
    assert s[|before| + |pat|..] == after;
    forall j | OccursAt(after, pat, j)
      ensures false
    {
      ShiftOccurrence(s, pat, |before| + |pat|, j);
    }
    ReplaceAbsent(after, pat, rep);
    assert s[..|before|] == before;
  }

  /** Extending the first piece by one character extends the joined text by it. */
  lemma {:induction false} JoinExtendFirst(c: char, pieces: seq<string>, sep: string)
    requires |pieces| >= 1
    ensures Join([[c] + pieces[0]] + pieces[1..], sep) == [c] + Join(pieces, sep)
  {
    var longer := [[c] + pieces[0]] + pieces[1..];
    if |pieces| > 1 {
      assert longer[1..] == pieces[1..];
    }
  }

  /** `ReplaceAll` is the gaps between matched occurrences, joined by the replacement. */
  lemma {:induction false} ReplaceIsJoin(s: string, pat: string, rep: string)
    requires pat != []
    ensures ReplaceAll(s, pat, rep) == Join(Gaps(s, pat), rep)
    decreases |s|
  {
    if |s| < |pat| {
    } else if s[..|pat|] == pat {
      var t := s[|pat|..];
      ReplaceIsJoin(t, pat, rep);
      assert ([[]] + Gaps(t, pat))[1..] == Gaps(t, pat);
    } else {
      ReplaceIsJoin(s[1..], pat, rep);
      JoinExtendFirst(s[0], Gaps(s[1..], pat), rep);
    }
  }

  lemma OccursInPrefix(p: string, s: string, pat: string, i: int)
    requires p <= s
    ensures OccursAt(p, pat, i) ==> OccursAt(s, pat, i)
  {
    if OccursAt(p, pat, i) {
      assert p[i..i + |pat|] == s[i..i + |pat|];
    }
  }

  lemma OccursInTail(c: char, t: string, pat: string, i: int)
    ensures OccursAt([c] + t, pat, i) && i > 0 ==> OccursAt(t, pat, i - 1)
  {
    if OccursAt([c] + t, pat, i) && i > 0 {
      assert ([c] + t)[i..i + |pat|] == t[i - 1..i - 1 + |pat|];
    }
  }

  /** No gap contains the pattern: every occurrence in the text was matched. */
  lemma {:induction false} GapsHaveNoOccurrence(s: string, pat: string)
    requires pat != []
    ensures forall k :: 0 <= k < |Gaps(s, pat)| ==> !Contains(Gaps(s, pat)[k], pat)
    decreases |s|
  {
    var g := Gaps(s, pat);
    if |s| < |pat| {
    } else if s[..|pat|] == pat {
      var rest := Gaps(s[|pat|..], pat);
      GapsHaveNoOccurrence(s[|pat|..], pat);
      assert g == [[]] + rest;
      assert forall k :: 1 <= k < |g| ==> g[k] == rest[k - 1];
    } else {
      var rest := Gaps(s[1..], pat);
      GapsHaveNoOccurrence(s[1..], pat);
      var head := [s[0]] + rest[0];
      assert g == [head] + rest[1..];
      OccursInPrefix(head, s, pat, 0);
      assert !OccursAt(s, pat, 0);
      forall i | 0 <= i <= |head|
        ensures !OccursAt(head, pat, i)
      {
        OccursInTail(s[0], rest[0], pat, i);
      }
      assert forall k :: 1 <= k < |g| ==> g[k] == rest[k];
    }
  }

  /**
   * `ReplaceAll` cuts the text into gaps at the matched occurrences and joins
   * them again with the replacement: the gaps are kept byte for byte, and no
   * gap still contains the pattern, so every occurrence was replaced.
   */
  lemma ReplaceByGaps(s: string, pat: string, rep: string)
    requires pat != []
    ensures Join(Gaps(s, pat), pat) == s
    ensures ReplaceAll(s, pat, rep) == Join(Gaps(s, pat), rep)
    ensures forall k :: 0 <= k < |Gaps(s, pat)| ==> !Contains(Gaps(s, pat)[k], pat)
  {
    ReplaceIsJoin(s, pat, rep);
    ReplaceIsJoin(s, pat, pat);
    ReplaceSame(s, pat);
    GapsHaveNoOccurrence(s, pat);
  }

  /** A manifest without the old version element is written back unchanged. */
  lemma PatchAbsent(text: string, current: string, next: string)
    requires !Contains(text, Element(current))
    ensures PatchManifest(text, current, next) == text
  {
    ReplaceAbsent(text, Element(current), Element(next));
  }

  /** Patching a version to itself leaves the manifest unchanged. */
  lemma PatchSameVersion(text: string, version: string)
    ensures PatchManifest(text, version, version) == text
  {
    ReplaceSame(text, Element(version));
  }

  /** With one version element, only its content changes; the bytes around it are kept. */
  lemma PatchSingle(before: string, after: string, current: string, next: string)
    requires forall i :: OccursAt(before + Element(current) + after, Element(current), i) ==> i == |before|
    ensures PatchManifest(before + Element(current) + after, current, next)
      == before + "<Version>" + next + "</Version>" + after
  {
    ReplaceSingle(before, Element(current), after, Element(next));
  }

  /** Every version element is rewritten and the text between them is kept. */
  lemma PatchEveryOccurrence(text: string, current: string, next: string)
    ensures var gaps := Gaps(text, Element(current));
      && text == Join(gaps, Element(current))
      && PatchManifest(text, current, next) == Join(gaps, Element(next))
      && forall k :: 0 <= k < |gaps| ==> !Contains(gaps[k], Element(current))
  {
    ReplaceByGaps(text, Element(current), Element(next));
  }
}
