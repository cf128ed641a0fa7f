/**
 * The version record the tool borrows from the `semver` crate: a strict
 * parser for `major.minor.patch[-pre][+build]` and the rendering of a
 * record back to that text.
 *
 * The grammar is a simplification of Semantic Versioning 2.0.0: each of the
 * three numbers is a decimal numeral without a leading zero that fits in 64
 * bits; the pre-release and build parts are non-empty lists of non-empty,
 * dot-separated identifiers made of ASCII letters, digits and hyphens. There
 * is no padding of short versions: "1.2" and "2" are rejected.
 */
module Semver {
  import opened Wrappers

  /** The numeric components are `u64` in the crate. */
  const U64_BOUND: nat := 0x1_0000_0000_0000_0000

  /** An empty `pre` or `build` stands for the crate's `Prerelease::EMPTY` / `BuildMetadata::EMPTY`. */
  datatype Version = Version(major: nat, minor: nat, patch: nat, pre: string, build: string)

  predicate IsDigit(c: char) {
    '0' <= c <= '9'
  }

  predicate AllDigits(s: string) {
    forall i :: 0 <= i < |s| ==> IsDigit(s[i])
  }

  function DigitChar(d: nat): (c: char)
    requires d < 10
    ensures IsDigit(c)
  {
    ('0' as int + d) as char
  }

  function DigitValue(c: char): (d: nat)
    requires IsDigit(c)
    ensures d < 10 && DigitChar(d) == c
  {
    c as int - '0' as int
  }

  /** The decimal numeral of `n`, as `Display` writes a `u64`. */
  function Decimal(n: nat): (s: string)
    ensures |s| > 0 && AllDigits(s)
    decreases n
  {
    if n < 10 then [DigitChar(n)] else Decimal(n / 10) + [DigitChar(n % 10)]
  }

  /** The number a string of digits denotes. */
  function DigitsValue(s: string): nat
    requires AllDigits(s)
  {
    if s == [] then 0 else DigitsValue(s[..|s| - 1]) * 10 + DigitValue(s[|s| - 1])
  }

  /** A numeric component: digits only, and no leading zero except in "0" itself. */
  predicate Canonical(s: string) {
    |s| > 0 && AllDigits(s) && (s[0] == '0' ==> |s| == 1)
  }

  function ParseNumber(s: string): Option<nat> {
    if Canonical(s) && DigitsValue(s) < U64_BOUND then Some(DigitsValue(s)) else None
  }

  predicate IdentChar(c: char) {
    'a' <= c <= 'z' || 'A' <= c <= 'Z' || IsDigit(c) || c == '-'
  }

  /** A pre-release or build part: non-empty identifiers separated by single dots. */
  predicate Identifiers(s: string) {
    && |s| > 0
    && s[0] != '.'
    && s[|s| - 1] != '.'
    && (forall i :: 0 <= i < |s| ==> IdentChar(s[i]) || s[i] == '.')
    && (forall i :: 0 <= i < |s| - 1 ==> !(s[i] == '.' && s[i + 1] == '.'))
  }

  /** The text before the first `c`, and the text after it when there is one. */
  function SplitFirst(s: string, c: char): (r: (string, Option<string>))
    ensures c !in r.0
    ensures r.1.None? ==> r.0 == s
    ensures r.1.Some? ==> s == r.0 + [c] + r.1.value
  {
    if s == [] then ([], None)
    else if s[0] == c then ([], Some(s[1..]))
    else
      var (before, after) := SplitFirst(s[1..], c);
      assert after.Some? ==> s == [s[0]] + (before + [c] + after.value);
      ([s[0]] + before, after)
  }

  function OrEmpty(part: Option<string>): string {
    if part.Some? then part.value else []
  }

  /** The three numbers of `major.minor.patch`; a missing or extra component fails. */
  function ParseCore(core: string): Option<(nat, nat, nat)> {
    var (major, afterMajor) := SplitFirst(core, '.');
    if afterMajor.None? then None
    else
      var (minor, afterMinor) := SplitFirst(afterMajor.value, '.');
      if afterMinor.None? then None
      else
        var (ma, mi, pa) := (ParseNumber(major), ParseNumber(minor), ParseNumber(afterMinor.value));
        if ma.None? || mi.None? || pa.None? then None
        else Some((ma.value, mi.value, pa.value))
  }

  /** A pre-release or build part is either absent or a valid list of identifiers. */
  predicate ValidPart(part: Option<string>) {
    part.None? || Identifiers(part.value)
  }

  /** `Version::parse`: strict, no normalisation. */
  function Parse(s: string): Option<Version> {
    var (rest, build) := SplitFirst(s, '+');
    var (core, pre) := SplitFirst(rest, '-');
    var numbers := ParseCore(core);
    if numbers.Some? && ValidPart(pre) && ValidPart(build) then
      Some(Version(numbers.value.0, numbers.value.1, numbers.value.2, OrEmpty(pre), OrEmpty(build)))
    else None
  }

  function CoreText(major: nat, minor: nat, patch: nat): string {
    Decimal(major) + "." + Decimal(minor) + "." + Decimal(patch)
  }

  /** `sep` followed by `part`, or nothing when `part` is empty. */
  function Suffix(sep: char, part: string): string {
    if part == [] then [] else [sep] + part
  }

  /** `Version`'s `Display`: `major.minor.patch`, then `-pre` and `+build` when non-empty. */
  function Render(v: Version): string {
    CoreText(v.major, v.minor, v.patch) + Suffix('-', v.pre) + Suffix('+', v.build)
  }

  /** The records `Parse` can produce. */
  predicate WellFormed(v: Version) {
    && v.major < U64_BOUND && v.minor < U64_BOUND && v.patch < U64_BOUND
    && (v.pre == [] || Identifiers(v.pre))
    && (v.build == [] || Identifiers(v.build))
  }

  lemma {:induction false} SplitFirstAt(a: string, c: char, b: string)
    requires c !in a
    ensures SplitFirst(a + [c] + b, c) == (a, Some(b))
  {
    var s := a + [c] + b;
    if a == [] {
      assert s[1..] == b;
    } else {
      assert s[0] == a[0] != c;
      assert s[1..] == a[1..] + [c] + b;
      SplitFirstAt(a[1..], c, b);
      assert [a[0]] + a[1..] == a;
    }
  }

  lemma SplitFirstAbsent(s: string, c: char)
    requires c !in s
    ensures SplitFirst(s, c) == (s, None)
  {
  }

  lemma {:induction false} DecimalRoundTrip(n: nat)
    ensures Canonical(Decimal(n)) && DigitsValue(Decimal(n)) == n
  {
    if n >= 10 {
      DecimalRoundTrip(n / 10);
      var s := Decimal(n);
      assert s[..|s| - 1] == Decimal(n / 10);
      assert s[0] == Decimal(n / 10)[0];
    }
  }

  lemma {:induction false} LeadingNonZero(s: string)
    requires |s| > 0 && AllDigits(s) && s[0] != '0'
    ensures DigitsValue(s) >= 1
  {
    if |s| > 1 {
      LeadingNonZero(s[..|s| - 1]);
    }
  }

  lemma {:induction false} CanonicalRoundTrip(s: string)
    requires Canonical(s)
    ensures Decimal(DigitsValue(s)) == s
  {
    if |s| > 1 {
      var p := s[..|s| - 1];
      LeadingNonZero(p);
      CanonicalRoundTrip(p);
      var n := DigitsValue(s);
      assert n / 10 == DigitsValue(p) && n % 10 == DigitValue(s[|s| - 1]);
      assert s == p + [s[|s| - 1]];
    } else {
      assert s == [s[0]];
    }
  }

  lemma NoSeparatorInNumeral(s: string)
    requires AllDigits(s)
    ensures '.' !in s && '-' !in s && '+' !in s
  {
  }

  lemma NoPlusInIdentifiers(s: string)
    requires s == [] || Identifiers(s)
    ensures '+' !in s
  {
  }

  lemma ParseCoreText(major: nat, minor: nat, patch: nat)
    requires major < U64_BOUND && minor < U64_BOUND && patch < U64_BOUND
    ensures ParseCore(CoreText(major, minor, patch)) == Some((major, minor, patch))
  {
    var (ma, mi, pa) := (Decimal(major), Decimal(minor), Decimal(patch));
    DecimalRoundTrip(major);
    DecimalRoundTrip(minor);
    DecimalRoundTrip(patch);
    NoSeparatorInNumeral(ma);
    NoSeparatorInNumeral(mi);
    assert CoreText(major, minor, patch) == ma + ['.'] + (mi + ['.'] + pa);
    SplitFirstAt(ma, '.', mi + ['.'] + pa);
    SplitFirstAt(mi, '.', pa);
  }

  /** A numeral the parse accepts is the rendering of its value, in range, with no separator. */
  lemma NumeralInverse(s: string, n: nat)
    requires ParseNumber(s) == Some(n)
    ensures Decimal(n) == s && n < U64_BOUND
    ensures '.' !in s && '-' !in s && '+' !in s
  {
    CanonicalRoundTrip(s);
    NoSeparatorInNumeral(s);
  }

  lemma CoreTextInverse(core: string, major: nat, minor: nat, patch: nat)
    requires ParseCore(core) == Some((major, minor, patch))
    ensures CoreText(major, minor, patch) == core
    ensures major < U64_BOUND && minor < U64_BOUND && patch < U64_BOUND
    ensures '-' !in core && '+' !in core
  {
    var (ma, afterMajor) := SplitFirst(core, '.');
    var (mi, afterMinor) := SplitFirst(afterMajor.value, '.');
    var pa := afterMinor.value;
    NumeralInverse(ma, major);
    NumeralInverse(mi, minor);
    NumeralInverse(pa, patch);
    assert core == ma + "." + mi + "." + pa;
  }

  /** Rendering a well-formed record and parsing the text gives the record back. */
  lemma ParseRender(v: Version)
    requires WellFormed(v)
    ensures Parse(Render(v)) == Some(v)
  {
    var core := CoreText(v.major, v.minor, v.patch);
    ParseCoreText(v.major, v.minor, v.patch);
    CoreTextInverse(core, v.major, v.minor, v.patch);
    NoPlusInIdentifiers(v.pre);
    var rest := core + Suffix('-', v.pre);
    var text := Render(v);
    var prePart: Option<string> := if v.pre == [] then None else Some(v.pre);
    var buildPart: Option<string> := if v.build == [] then None else Some(v.build);
    assert '+' !in rest;
    if v.build == [] {
      assert text == rest;
      SplitFirstAbsent(rest, '+');
    } else {
      assert text == rest + ['+'] + v.build;
      SplitFirstAt(rest, '+', v.build);
    }
    if v.pre == [] {
      assert rest == core;
      SplitFirstAbsent(core, '-');
    } else {
      assert rest == core + ['-'] + v.pre;
      SplitFirstAt(core, '-', v.pre);
    }
    assert SplitFirst(text, '+') == (rest, buildPart);
    assert SplitFirst(rest, '-') == (core, prePart);
    assert ValidPart(prePart) && ValidPart(buildPart);
    assert OrEmpty(prePart) == v.pre && OrEmpty(buildPart) == v.build;
  }

  /** A text is the part before the first `c`, then `c` and a non-empty rest when there is one. */
  lemma SplitSuffix(whole: string, c: char)
    requires SplitFirst(whole, c).1.Some? ==> SplitFirst(whole, c).1.value != []
    ensures whole == SplitFirst(whole, c).0 + Suffix(c, OrEmpty(SplitFirst(whole, c).1))
  {
  }

  /** Every text `Parse` accepts is exactly the rendering of the record it yields. */
  lemma RenderParse(s: string, v: Version)
    requires Parse(s) == Some(v)
    ensures WellFormed(v) && Render(v) == s
  {
    var (rest, build) := SplitFirst(s, '+');
    var (core, pre) := SplitFirst(rest, '-');
    assert ParseCore(core) == Some((v.major, v.minor, v.patch));
    assert ValidPart(pre) && ValidPart(build);
    assert v.pre == OrEmpty(pre) && v.build == OrEmpty(build);
    CoreTextInverse(core, v.major, v.minor, v.patch);
    SplitSuffix(rest, '-');
    SplitSuffix(s, '+');
  }

  /** A record is determined by its rendering. */
  lemma RenderInjective(v: Version, w: Version)
    requires WellFormed(v) && WellFormed(w)
    requires Render(v) == Render(w)
    ensures v == w
  {
    ParseRender(v);
    ParseRender(w);
  }

  /** A core with fewer than two dots has no `patch` component. */
  lemma ShortCoreRejected(first: string, second: Option<string>)
    requires '.' !in first && (second.Some? ==> '.' !in second.value)
    ensures ParseCore(if second.None? then first else first + ['.'] + second.value) == None
  {
    if second.None? {
      SplitFirstAbsent(first, '.');
    } else {
      SplitFirstAt(first, '.', second.value);
      SplitFirstAbsent(second.value, '.');
    }
  }

  /** Versions with fewer than three numeric components are rejected, not padded. */
  lemma ShortVersionsRejected()
    ensures Parse("1.2") == None
    ensures Parse("2") == None
    ensures Parse("0.9") == None
    ensures Parse("1.2-beta") == None
  {
    assert "1" + ['.'] + "2" == "1.2";
    assert "0" + ['.'] + "9" == "0.9";
    assert "1.2" + ['-'] + "beta" == "1.2-beta";
    SplitFirstAbsent("1.2", '+');
    SplitFirstAbsent("1.2", '-');
    ShortCoreRejected("1", Some("2"));
    SplitFirstAbsent("2", '+');
    SplitFirstAbsent("2", '-');
    ShortCoreRejected("2", None);
    SplitFirstAbsent("0.9", '+');
    SplitFirstAbsent("0.9", '-');
    ShortCoreRejected("0", Some("9"));
    SplitFirstAbsent("1.2-beta", '+');
    SplitFirstAt("1.2", '-', "beta");
  }
}
