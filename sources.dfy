/**
 * The choice of files copied into the release folder. The working directory
 * is given as the list of its entry names, in the order the host lists them;
 * a name "exists" when it is in that list.
 */
module Sources {
  import opened Wrappers

  /** One file copy: a name in the working directory and its name in the release folder. */
  datatype Copy = Copy(source: string, target: string)

  /** The index of the last `.` in `name`, if any. */
  function LastDot(name: string): (r: Option<nat>)
    ensures r.None? ==> '.' !in name
    ensures r.Some? ==> r.value < |name| && name[r.value] == '.' && '.' !in name[r.value + 1..]
  {
    if name == [] then None
    else if name[|name| - 1] == '.' then Some(|name| - 1)
    else
      var r := LastDot(name[..|name| - 1]);
      assert r.Some? ==> name[r.value + 1..] == name[..|name| - 1][r.value + 1..] + [name[|name| - 1]];
      r
  }

  /**
   * `Path::extension` of a file name: the text after the last dot, except
   * when there is no dot, when the only dot starts the name, or for "..".
   */
  function Extension(name: string): (r: Option<string>)
    ensures r.Some? ==> '.' !in r.value && |r.value| + 2 <= |name| && name[|name| - |r.value| - 1..] == ['.'] + r.value
    ensures r.None? <==> name == ".." || '.' !in name || (name[0] == '.' && '.' !in name[1..])
  {
    if name == ".." then None
    else match LastDot(name)
      case None => None
      case Some(k) => if k == 0 then None else Some(name[k + 1..])
  }

  predicate IsLuaSource(name: string) {
    Extension(name) == Some("lua")
  }

  /** The copies the loop over the entries makes, in listing order: each `.lua` file under its own name. */
  function LuaCopies(entries: seq<string>): (r: seq<Copy>)
    ensures |r| <= |entries|
    ensures forall c :: c in r ==> c.source == c.target && c.source in entries && IsLuaSource(c.source)
    ensures forall name :: name in entries && IsLuaSource(name) ==> Copy(name, name) in r
  {
    if entries == [] then []
    else
      var last := entries[|entries| - 1];
      var init := entries[..|entries| - 1];
      assert forall name :: name in entries ==> name in init || name == last;
      LuaCopies(init) + if IsLuaSource(last) then [Copy(last, last)] else []
  }

  /** At most one readme: `readme.md` wins over `README.md`; either is copied as `README.md`. */
  function ReadmeCopy(entries: seq<string>): (r: Option<Copy>)
    ensures r.Some? <==> "readme.md" in entries || "README.md" in entries
    ensures r.Some? ==> r.value.target == "README.md"
    ensures "readme.md" in entries ==> r == Some(Copy("readme.md", "README.md"))
    ensures "readme.md" !in entries && "README.md" in entries ==> r == Some(Copy("README.md", "README.md"))
  {
    if "readme.md" in entries then Some(Copy("readme.md", "README.md"))
    else if "README.md" in entries then Some(Copy("README.md", "README.md"))
    else None
  }

  /** Everything `copy_sources` copies, in order. */
  function SourceCopies(entries: seq<string>): seq<Copy> {
    var readme := ReadmeCopy(entries);
    LuaCopies(entries) + if readme.Some? then [readme.value] else []
  }

  /** `copy_sources`: the loop over the directory entries, then the readme choice. */
  method CopySources(entries: seq<string>) returns (copies: seq<Copy>)
    ensures copies == SourceCopies(entries)
  {
    copies := [];
    for i := 0 to |entries|
      invariant copies == LuaCopies(entries[..i])
    {
      var name := entries[i];
      assert entries[..i + 1][..i] == entries[..i];
      if IsLuaSource(name) {
        copies := copies + [Copy(name, name)];
      }
    }
    assert entries[..|entries|] == entries;
    if "readme.md" in entries {
      copies := copies + [Copy("readme.md", "README.md")];
    } else if "README.md" in entries {
      copies := copies + [Copy("README.md", "README.md")];
    }
  }

  /** A dot with no dot after it is the last dot. */
  lemma {:induction false} LastDotAt(name: string, k: nat)
    requires k < |name| && name[k] == '.' && '.' !in name[k + 1..]
    ensures LastDot(name) == Some(k)
  {
    if k < |name| - 1 {
      var init := name[..|name| - 1];
      assert name[k + 1..][|name| - 2 - k] == name[|name| - 1];
      assert init[k + 1..] <= name[k + 1..];
      LastDotAt(init, k);
    }
  }

  /**
   * The extension test is exactly "the name is longer than `.lua` and ends
   * in `.lua`": case-sensitive, and on the part after the last dot.
   */
  lemma LuaIffSuffix(name: string)
    ensures IsLuaSource(name) <==> |name| > 4 && name[|name| - 4..] == ".lua"
  {
    var n := |name|;
    if IsLuaSource(name) {
      var k := LastDot(name).value;
      assert name[k + 1..] == "lua";
      assert name[n - 4..] == [name[k]] + name[k + 1..];
    }
    if n > 4 && name[n - 4..] == ".lua" {
      assert name[n - 4] == '.';
      assert name[n - 3..] == "lua";
      LastDotAt(name, n - 4);
    }
  }

  lemma NotLuaExamples()
    ensures IsLuaSource("main.lua") && IsLuaSource("..lua")
    ensures !IsLuaSource("A.LUA") && !IsLuaSource("x.lua.bak") && !IsLuaSource(".lua") && !IsLuaSource("lua")
    ensures !IsLuaSource("README.md") && !IsLuaSource("readme.md") && !IsLuaSource("manifest.xml")
  {
    LuaIffSuffix("main.lua");
    LuaIffSuffix("..lua");
    LuaIffSuffix("A.LUA");
    LuaIffSuffix("x.lua.bak");
    LuaIffSuffix(".lua");
    LuaIffSuffix("lua");
    LuaIffSuffix("README.md");
    LuaIffSuffix("readme.md");
    LuaIffSuffix("manifest.xml");
  }

  /** No two copies write the same name in the release folder. */
  predicate DistinctTargets(copies: seq<Copy>) {
    forall i, j :: 0 <= i < j < |copies| ==> copies[i].target != copies[j].target
  }

  lemma AppendFreshTarget(copies: seq<Copy>, c: Copy)
    requires DistinctTargets(copies)
    requires forall k :: 0 <= k < |copies| ==> copies[k].target != c.target
    ensures DistinctTargets(copies + [c])
  {
    var longer := copies + [c];
    assert forall k :: 0 <= k < |copies| ==> longer[k] == copies[k];
  }

  /** Distinct entries give distinct `.lua` copies. */
  lemma {:induction false} LuaCopiesDistinct(entries: seq<string>)
    requires forall i, j :: 0 <= i < j < |entries| ==> entries[i] != entries[j]
    ensures DistinctTargets(LuaCopies(entries))
  {
    if entries != [] {
      var init := entries[..|entries| - 1];
      var last := entries[|entries| - 1];
      var r0 := LuaCopies(init);
      LuaCopiesDistinct(init);
      if IsLuaSource(last) {
        assert last !in init;
        forall k | 0 <= k < |r0|
          ensures r0[k].target != last
        {
          assert r0[k] in r0;
        }
        AppendFreshTarget(r0, Copy(last, last));
      } else {
        assert LuaCopies(entries) == r0 + [];
      }
    }
  }

  /** With distinct entry names, the `.lua` copies and the readme all have distinct targets. */
  lemma SourceCopiesDistinct(entries: seq<string>)
    requires forall i, j :: 0 <= i < j < |entries| ==> entries[i] != entries[j]
    ensures DistinctTargets(SourceCopies(entries))
  {
    var lua := LuaCopies(entries);
    var readme := ReadmeCopy(entries);
    LuaCopiesDistinct(entries);
    if readme.Some? {
      LuaIffSuffix("README.md");
      forall k | 0 <= k < |lua|
        ensures lua[k].target != readme.value.target
      {
        assert lua[k] in lua;
      }
      AppendFreshTarget(lua, readme.value);
    } else {
      assert SourceCopies(entries) == lua;
    }
  }

  /** Nothing `copy_sources` copies is named `manifest.xml`. */
  lemma NoManifestCopy(entries: seq<string>)
    ensures forall c :: c in SourceCopies(entries) ==> c.target != "manifest.xml"
  {
    LuaIffSuffix("manifest.xml");
  }

  /**
   * What lands in the release folder: the `.lua` entries under their own
   * names, at most one file named `README.md`, and nothing else.
   */
  lemma SourceCopiesSpec(entries: seq<string>)
    ensures var r := SourceCopies(entries);
      && (forall name :: IsLuaSource(name) ==> (Copy(name, name) in r <==> name in entries))
      && (forall c :: c in r && c.target != "README.md" ==> c.source == c.target && IsLuaSource(c.source) && c.source in entries)
      && (forall i, j :: 0 <= i < |r| && 0 <= j < |r| && r[i].target == "README.md" && r[j].target == "README.md" ==> i == j)
      && ("readme.md" in entries ==> Copy("readme.md", "README.md") in r)
      && ("readme.md" !in entries && "README.md" in entries ==> Copy("README.md", "README.md") in r)
  {
    var r := SourceCopies(entries);
    var lua := LuaCopies(entries);
    LuaIffSuffix("README.md");
    assert forall k :: 0 <= k < |lua| ==> r[k] == lua[k] && lua[k] in lua;
    assert forall k :: 0 <= k < |lua| ==> r[k].target != "README.md";
    assert |r| <= |lua| + 1;
  }
}
