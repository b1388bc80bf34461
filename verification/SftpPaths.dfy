/** app/api/sftp.py: path normalization, the allowed roots, and the target of an upload. */
module SftpPaths {
  import opened PyText

  predicate IsSlash(c: char) { c == '/' }

  /** `p.replace("\\", "/")`. */
  function Slashed(p: string): string { seq(|p|, i requires 0 <= i < |p| => if p[i] == '\\' then '/' else p[i]) }

  /** One component of `posixpath.normpath`. */
  function AddComponent(comps: seq<string>, c: string, rooted: bool): seq<string> {
    if c == "" || c == "." then comps
    else if c != ".." || (!rooted && comps == []) || (comps != [] && comps[|comps| - 1] == "..") then comps + [c]
    else if comps != [] then comps[..|comps| - 1]
    else comps
  }

  function Collapse(comps: seq<string>, parts: seq<string>, rooted: bool): seq<string>
    decreases parts
  {
    if parts == [] then comps else Collapse(AddComponent(comps, parts[0], rooted), parts[1..], rooted)
  }

  /** Exactly two leading slashes are kept; one, or three and more, become one. */
  function LeadingSlashes(path: string): string {
    if !StartsWith(path, "/") then "" else if StartsWith(path, "//") && !StartsWith(path, "///") then "//" else "/"
  }

  /** `posixpath.normpath`. */
  function NormPath(path: string): string {
    if path == "" then "."
    else
      var slashes := LeadingSlashes(path);
      var comps := Collapse([], SplitOn(path, '/'), slashes != "");
      var result := slashes + JoinWith(comps, '/');
      if result == "" then "." else result
  }

  function SafePath(p: string): string {
    var n := NormPath(Slashed(if p == "" then "/" else p));
    if StartsWith(n, "/") then n else "/" + n
  }

  predicate IsAbsolute(p: string) { p == "" || StartsWith(Slashed(p), "/") }

  /** Where a path leads from the root, by its text alone. */
  function Resolve(path: string): seq<string> { Collapse([], SplitOn(path, '/'), true) }

  /** An ordinary file name. */
  predicate IsName(c: string) { c != "" && c != "." && c != ".." && '/' !in c && '\\' !in c }

  predicate AllNames(comps: seq<string>) { forall i :: 0 <= i < |comps| ==> IsName(comps[i]) }

  // ------------------------------------------------------------ normal forms

  predicate NoSeparators(parts: seq<string>) {
    forall i :: 0 <= i < |parts| ==> '/' !in parts[i] && '\\' !in parts[i]
  }

  lemma {:induction false} SplitHasNoSeparators(s: string)
    requires '\\' !in s
    ensures NoSeparators(SplitOn(s, '/'))
    decreases |s|
  {
    var i := Find(s, '/');
    if i < |s| {
      SplitHasNoSeparators(s[i + 1..]);
    }
  }

  lemma {:induction false} RootedCollapseIsNames(comps: seq<string>, parts: seq<string>)
    requires AllNames(comps) && NoSeparators(parts)
    ensures AllNames(Collapse(comps, parts, true))
    decreases parts
  {
    if parts != [] {
      RootedCollapseIsNames(AddComponent(comps, parts[0], true), parts[1..]);
    }
  }

  /** Names are simply appended. */
  lemma {:induction false} CollapseNames(comps: seq<string>, names: seq<string>)
    requires AllNames(comps) && AllNames(names)
    ensures Collapse(comps, names, true) == comps + names
    decreases names
  {
    if names == [] {
      assert comps + names == comps;
    } else {
      CollapseNames(comps + [names[0]], names[1..]);
      assert comps + [names[0]] + names[1..] == comps + names;
    }
  }

  /** Slashes followed by names joined with single slashes. */
  predicate IsNormal(path: string, names: seq<string>) {
    AllNames(names) && (path == "/" + JoinWith(names, '/') || path == "//" + JoinWith(names, '/'))
  }

  lemma {:induction false} JoinedNames(names: seq<string>)
    requires AllNames(names)
    ensures var s := JoinWith(names, '/'); '\\' !in s && (s == "" <==> names == []) && (s != "" ==> s[0] != '/')
    decreases names
  {
    if names != [] {
      JoinedNames(names[1..]);
    }
  }

  lemma SplitAfterSlash(s: string)
    ensures SplitOn("/" + s, '/') == [""] + SplitOn(s, '/')
    ensures SplitOn("//" + s, '/') == ["", ""] + SplitOn(s, '/')
  {
    hide SplitOn, Find;
    assert "" + ['/'] + s == "/" + s;
    SplitOnCons("", s, '/');
    assert "" + ['/'] + ("/" + s) == "//" + s;
    SplitOnCons("", "/" + s, '/');
    assert [""] + ([""] + SplitOn(s, '/')) == ["", ""] + SplitOn(s, '/');
  }

  lemma SplitNames(names: seq<string>)
    requires AllNames(names)
    ensures SplitOn(JoinWith(names, '/'), '/') == if names == [] then [""] else names
  {
    if names == [] {
      SplitOnOne("", '/');
    } else {
      SplitOfJoin(names, '/');
    }
  }

  lemma SplitNormal(path: string, names: seq<string>)
    requires IsNormal(path, names)
    ensures SplitOn(path, '/') ==
      (if path == "/" + JoinWith(names, '/') then [""] else ["", ""]) + (if names == [] then [""] else names)
  {
    hide SplitOn, JoinWith, IsName;
    SplitAfterSlash(JoinWith(names, '/'));
    SplitNames(names);
  }

  lemma EmptyPartIsSkipped(parts: seq<string>)
    ensures Collapse([], [""] + parts, true) == Collapse([], parts, true)
    ensures Collapse([], [], true) == []
  {
    assert ([""] + parts)[1..] == parts;
  }

  lemma ResolveNormal(path: string, names: seq<string>)
    requires IsNormal(path, names)
    ensures Resolve(path) == names
  {
    SplitNormal(path, names);
    hide SplitOn, JoinWith, IsName, Collapse;
    var tail := if names == [] then [""] else names;
    assert SplitOn(path, '/') == [""] + tail || SplitOn(path, '/') == [""] + ([""] + tail);
    EmptyPartIsSkipped(tail);
    EmptyPartIsSkipped([""] + tail);
    EmptyPartIsSkipped([]);
    CollapseNames([], names);
    assert [] + names == names && [""] + [] == [""];
  }

  lemma SlashedKeeps(s: string)
    requires '\\' !in s
    ensures Slashed(s) == s
  {
  }

  lemma SlashedHasNoBackslash(p: string)
    ensures '\\' !in Slashed(p)
  {
  }

  lemma EmptyResolves()
    ensures Resolve("") == Resolve("/") == []
  {
    SplitOnOne("", '/');
    assert "" + ['/'] + "" == "/";
    SplitOnCons("", "", '/');
    assert ["", ""][1..] == [""] && [""][1..] == [];
  }

  /** Normalizing an absolute path gives a normal path with the same components. */
  lemma SafePathIsNormal(p: string)
    requires IsAbsolute(p)
    ensures IsNormal(SafePath(p), Resolve(Slashed(p)))
  {
    var q := Slashed(if p == "" then "/" else p);
    SlashedHasNoBackslash(if p == "" then "/" else p);
    SplitHasNoSeparators(q);
    RootedCollapseIsNames([], SplitOn(q, '/'));
    if p == "" {
      assert q == "/" && Slashed("") == "";
      EmptyResolves();
    }
  }

  lemma LeadingSlashesOf(s: string)
    requires s == "" || s[0] != '/'
    ensures LeadingSlashes("/" + s) == "/" && LeadingSlashes("//" + s) == "//"
  {
    var one, two := "/" + s, "//" + s;
    assert one[..1] == "/" && two[..1] == "/" && two[..2] == "//";
    assert s != "" ==> one[1] == s[0] && two[2] == s[0];
  }

  lemma NormalIsFixed(path: string, names: seq<string>)
    requires IsNormal(path, names)
    ensures SafePath(path) == path
  {
    JoinedNames(names);
    ResolveNormal(path, names);
    LeadingSlashesOf(JoinWith(names, '/'));
    hide SplitOn, JoinWith, Collapse, IsName, LeadingSlashes;
    SlashedKeeps(path);
    assert path != "" && path[..1] == "/";
  }

  /** For absolute paths normalization is idempotent and keeps where the path leads. */
  lemma SafePathKeepsMeaning(p: string)
    requires IsAbsolute(p)
    ensures SafePath(SafePath(p)) == SafePath(p)
    ensures Resolve(SafePath(p)) == Resolve(Slashed(p))
  {
    hide SafePath, Resolve, Slashed;
    var names := Resolve(Slashed(p));
    SafePathIsNormal(p);
    NormalIsFixed(SafePath(p), names);
    ResolveNormal(SafePath(p), names);
  }

  // ---------------------------------------------------------- relative paths

  predicate NameOrLeadingDots(comps: seq<string>, i: nat)
    requires i < |comps|
  {
    IsName(comps[i]) || (comps[i] == ".." && (i > 0 ==> comps[i - 1] == ".."))
  }

  /** Leading parent references, then names. */
  predicate DotsThenNames(comps: seq<string>) { forall i :: 0 <= i < |comps| ==> NameOrLeadingDots(comps, i) }

  lemma AddKeepsDotsThenNames(comps: seq<string>, c: string)
    requires DotsThenNames(comps) && '/' !in c && '\\' !in c
    ensures DotsThenNames(AddComponent(comps, c, false))
  {
    var after := AddComponent(comps, c, false);
    assert c == "" || c == "." || c == ".." || IsName(c);
    forall i | 0 <= i < |after| ensures NameOrLeadingDots(after, i) {
      if i < |comps| {
        assert NameOrLeadingDots(comps, i);
        assert after[i] == comps[i] && (i > 0 ==> after[i - 1] == comps[i - 1]);
      } else if comps != [] && c == ".." {
        assert after[i - 1] == comps[i - 1];
      }
    }
  }

  lemma {:induction false} UnrootedCollapse(comps: seq<string>, parts: seq<string>)
    requires DotsThenNames(comps) && NoSeparators(parts)
    ensures DotsThenNames(Collapse(comps, parts, false))
    decreases parts
  {
    if parts != [] {
      hide AddComponent;
      AddKeepsDotsThenNames(comps, parts[0]);
      UnrootedCollapse(AddComponent(comps, parts[0], false), parts[1..]);
    }
  }

  lemma DotsAreNoName()
    ensures !IsName("..") && '/' !in ".." && '/' !in "."
  {
  }

  lemma {:induction false} NameFirstMeansNames(comps: seq<string>, n: nat)
    requires DotsThenNames(comps) && comps != [] && comps[0] != ".." && n <= |comps|
    ensures AllNames(comps[..n])
    decreases n
  {
    if n > 0 {
      NameFirstMeansNames(comps, n - 1);
      DotsAreNoName();
      hide IsName;
      assert n > 1 ==> IsName(comps[..n - 1][n - 2]);
      assert NameOrLeadingDots(comps, n - 1);
      assert comps[..n] == comps[..n - 1] + [comps[n - 1]];
    }
  }

  lemma RelativeSafePath(p: string, collapsed: seq<string>)
    requires !IsAbsolute(p) && collapsed == Collapse([], SplitOn(Slashed(p), '/'), false) && DotsThenNames(collapsed)
    ensures SafePath(p) == "/" + JoinWith(if collapsed == [] then ["."] else collapsed, '/')
  {
    hide Collapse, SplitOn;
    var result := JoinWith(collapsed, '/');
    assert LeadingSlashes(Slashed(p)) == "" && "" + result == result;
    if collapsed != [] {
      assert NameOrLeadingDots(collapsed, 0);
      assert result[0] == collapsed[0][0];
    }
  }

  /** The components of any normalized path: those of a normal path, or a leading empty one and dots before names. */
  lemma SafePathSplits(p: string) returns (comps: seq<string>)
    requires !IsAbsolute(p)
    ensures comps == ["."] || DotsThenNames(comps)
    ensures comps != [] && comps[0] != ""
    ensures SafePath(p) == "/" + JoinWith(comps, '/') && SplitOn(SafePath(p), '/') == [""] + comps
  {
    var q := Slashed(p);
    SlashedHasNoBackslash(p);
    SplitHasNoSeparators(q);
    var collapsed := Collapse([], SplitOn(q, '/'), false);
    UnrootedCollapse([], SplitOn(q, '/'));
    comps := if collapsed == [] then ["."] else collapsed;
    RelativeSafePath(p, collapsed);
    hide SafePath, Collapse, SplitOn;
    DotsAreNoName();
    forall i | 0 <= i < |comps| ensures '/' !in comps[i] && comps[i] != "" {
      if collapsed != [] { assert NameOrLeadingDots(collapsed, i); }
    }
    hide IsName, DotsThenNames, IsAbsolute;
    SplitOfJoin(comps, '/');
    SplitAfterSlash(JoinWith(comps, '/'));
  }

  // -------------------------------------------------------------- containment

  /** The test `_ensure_path_allowed` makes for one root. */
  predicate Accepts(root: string, safe: string) {
    root == "/" || safe == root || StartsWith(safe, TrimRight(root, IsSlash) + "/")
  }

  lemma {:induction false} JoinEndsWithName(names: seq<string>)
    requires AllNames(names) && names != []
    ensures var s := JoinWith(names, '/'); s != "" && s[|s| - 1] != '/'
    decreases names
  {
    if |names| > 1 {
      JoinEndsWithName(names[1..]);
    }
  }

  lemma {:induction false} NormalHasNoTrailingSlash(root: string, names: seq<string>)
    requires IsNormal(root, names)
    ensures TrimRight(root, IsSlash) == if names == [] then "" else root
  {
    if names == [] {
      assert root == "/" || root == "//";
      assert "/"[..0] == "" && "//"[..1] == "/";
    } else {
      JoinEndsWithName(names);
      var s := JoinWith(names, '/');
      assert root[|root| - 1] == s[|s| - 1];
    }
  }

  lemma LongerHasMoreParts(root: string, rest: string)
    ensures SplitOn(root, '/') <= SplitOn(root + "/" + rest, '/')
  {
    SplitOnAppend(root, rest, '/');
  }

  lemma MorePartsMeansLonger(root: string, safe: string)
    requires SplitOn(root, '/') <= SplitOn(safe, '/')
    ensures safe == root || StartsWith(safe, root + "/")
  {
    JoinOfSplit(safe, '/');
    JoinOfSplit(root, '/');
    hide SplitOn, JoinWith;
    var parts, prefix := SplitOn(safe, '/'), SplitOn(root, '/');
    var tail := parts[|prefix|..];
    assert parts == prefix + tail;
    if tail == [] {
      assert parts == prefix;
    } else {
      JoinAppend(prefix, tail, '/');
      assert safe == root + "/" + JoinWith(tail, '/');
    }
  }

  /**
   The top roots `/` and `//` accept every path; any other root accepts exactly the paths it is a component prefix
   of.
   */
  lemma AcceptsIff(root: string, names: seq<string>, safe: string)
    requires IsNormal(root, names) && StartsWith(safe, "/")
    ensures Accepts(root, safe) <==> names == [] || SplitOn(root, '/') <= SplitOn(safe, '/')
  {
    NormalHasNoTrailingSlash(root, names);
    hide TrimRight, SplitOn, IsName;
    if names == [] {
      assert "" + "/" == "/";
    } else {
      JoinedNames(names);
      assert root != "/";
      hide JoinWith;
      if StartsWith(safe, root + "/") {
        var rest := safe[|root| + 1..];
        assert safe == root + "/" + rest;
        LongerHasMoreParts(root, rest);
      }
      if SplitOn(root, '/') <= SplitOn(safe, '/') {
        MorePartsMeansLonger(root, safe);
      }
    }
  }

  lemma PrefixOfNormal(prefix: seq<string>, parts: seq<string>, names: seq<string>, tail: seq<string>)
    requires AllNames(names) && AllNames(tail) && names != [] && prefix <= parts
    requires prefix == ["", ""] + names || prefix == [""] + names
    requires var last := if tail == [] then [""] else tail; parts == ["", ""] + last || parts == [""] + last
    ensures names <= tail
  {
    assert IsName(names[0]) && names[0] != "";
    if tail != [] { assert IsName(tail[0]) && tail[0] != ""; }
    hide IsName;
    var skip := |prefix| - |names|;
    assert prefix[skip] == names[0] == parts[skip];
    var last := if tail == [] then [""] else tail;
    assert prefix[1] == parts[1];
    assert parts == parts[..skip] + last;
    forall i | 0 <= i < |names| ensures i < |last| && names[i] == last[i] {
      assert prefix[skip + i] == names[i] && parts[skip + i] == last[i];
    }
  }

  lemma AbsoluteIsContained(p: string, root: string, names: seq<string>)
    requires IsNormal(root, names) && names != [] && SplitOn(root, '/') <= SplitOn(SafePath(p), '/') && IsAbsolute(p)
    ensures IsNormal(SafePath(p), Resolve(SafePath(p))) && names <= Resolve(SafePath(p))
  {
    hide SafePath, Slashed, SplitOn, JoinWith, Resolve, IsAbsolute, IsName;
    var safe, tail := SafePath(p), Resolve(Slashed(p));
    SafePathIsNormal(p);
    ResolveNormal(safe, tail);
    SplitNormal(root, names);
    SplitNormal(safe, tail);
    PrefixOfNormal(SplitOn(root, '/'), SplitOn(safe, '/'), names, tail);
  }

  lemma RelativePrefix(prefix: seq<string>, parts: seq<string>, names: seq<string>, comps: seq<string>)
    requires prefix == [""] + names || prefix == ["", ""] + names
    requires parts == [""] + comps && prefix <= parts
    requires names != [] && comps != [] && comps[0] != ""
    ensures names <= comps
  {
    assert prefix[1] == parts[1] == comps[0];
    assert prefix == [""] + names;
    forall i | 0 <= i < |names| ensures i < |comps| && names[i] == comps[i] {
      assert prefix[i + 1] == parts[i + 1];
    }
  }

  lemma FirstIsName(names: seq<string>)
    requires AllNames(names) && names != []
    ensures names[0] != "." && names[0] != ".."
  {
    assert IsName(names[0]);
  }

  lemma RelativeIsContained(p: string, root: string, names: seq<string>)
    requires IsNormal(root, names) && names != [] && SplitOn(root, '/') <= SplitOn(SafePath(p), '/') && !IsAbsolute(p)
    ensures IsNormal(SafePath(p), Resolve(SafePath(p))) && names <= Resolve(SafePath(p))
  {
    hide SafePath, SplitOn, JoinWith, Resolve, IsAbsolute, IsName, DotsThenNames;
    FirstIsName(names);
    var comps := SafePathSplits(p);
    SplitNormal(root, names);
    RelativePrefix(SplitOn(root, '/'), SplitOn(SafePath(p), '/'), names, comps);
    assert comps[0] == names[0];
    NameFirstMeansNames(comps, |comps|);
    assert comps[..|comps|] == comps;
    ResolveNormal(SafePath(p), comps);
  }

  lemma SafePathIsAbsolute(p: string)
    ensures StartsWith(SafePath(p), "/")
  {
    hide NormPath, Slashed;
  }

  /** A path accepted by a root other than the top is free of `.` and `..` and lies below the root. */
  lemma AcceptedIsContained(p: string, root: string, names: seq<string>)
    requires IsNormal(root, names) && names != [] && Accepts(root, SafePath(p))
    ensures IsNormal(SafePath(p), Resolve(SafePath(p))) && names <= Resolve(SafePath(p))
  {
    SafePathIsAbsolute(p);
    hide SafePath, Accepts, IsNormal, SplitOn, Resolve, IsAbsolute;
    AcceptsIff(root, names, SafePath(p));
    if IsAbsolute(p) {
      AbsoluteIsContained(p, root, names);
    } else {
      RelativeIsContained(p, root, names);
    }
  }

  // ------------------------------------------------------------ allowed roots

  /** The first truthy setting: unset, a comma-separated text, or a list. */
  datatype RootsConfig = Unset | Csv(text: string) | Listed(items: seq<string>)

  const DEFAULT_ROOTS := ["/data", "/opt", "/var/log", "/tmp"]

  function StrippedNonEmpty(parts: seq<string>): seq<string>
    decreases parts
  {
    if parts == [] then []
    else (if Strip(parts[0]) == "" then [] else [Strip(parts[0])]) + StrippedNonEmpty(parts[1..])
  }

  function ConfiguredRoots(cfg: RootsConfig): (roots: seq<string>)
    ensures roots != []
  {
    var roots :=
      match cfg
      case Unset => []
      case Csv(text) => StrippedNonEmpty(SplitOn(text, ','))
      case Listed(items) => items;
    if roots == [] then DEFAULT_ROOTS else roots
  }

  /** The items at their first occurrences. */
  function WithoutRepeats(items: seq<string>): (r: seq<string>)
    ensures forall x :: x in r <==> x in items
    ensures forall i, j | 0 <= i < j < |r| :: r[i] != r[j]
    decreases items
  {
    if items == [] then []
    else
      var last := items[|items| - 1];
      var r := WithoutRepeats(items[..|items| - 1]);
      assert items == items[..|items| - 1] + [last];
      if last in r then r else r + [last]
  }

  function SafePaths(paths: seq<string>): seq<string> {
    seq(|paths|, i requires 0 <= i < |paths| => SafePath(paths[i]))
  }

  /** The normalized roots, each where it first occurs. */
  method ServerAllowedRoots(cfg: RootsConfig) returns (normalized: seq<string>)
    ensures normalized != [] && normalized == WithoutRepeats(SafePaths(ConfiguredRoots(cfg)))
  {
    hide SafePath, ConfiguredRoots;
    var roots := ConfiguredRoots(cfg);
    normalized := [];
    for i := 0 to |roots|
      invariant normalized == WithoutRepeats(SafePaths(roots[..i]))
    {
      var safe := SafePath(roots[i]);
      assert SafePaths(roots[..i + 1]) == SafePaths(roots[..i]) + [safe];
      if safe !in normalized {
        normalized := normalized + [safe];
      }
    }
    assert roots[..|roots|] == roots;
    assert SafePaths(roots)[0] in normalized;
  }

  predicate AnyAccepts(roots: seq<string>, safe: string) {
    exists i :: 0 <= i < |roots| && Accepts(roots[i], safe)
  }

  method EnsurePathAllowed(path: string, roots: seq<string>) returns (r: Result<string>)
    ensures r == if AnyAccepts(roots, SafePath(path)) then Ok(SafePath(path)) else Raised
  {
    hide SafePath;
    var safe := SafePath(path);
    for i := 0 to |roots|
      invariant forall j :: 0 <= j < i ==> !Accepts(roots[j], safe)
    {
      var root := roots[i];
      if root == "/" || safe == root || StartsWith(safe, TrimRight(root, IsSlash) + "/") {
        assert Accepts(roots[i], safe);
        return Ok(safe);
      }
    }
    r := Raised;
  }

  predicate ProperRoots(roots: seq<string>) {
    forall i :: 0 <= i < |roots| ==> Resolve(roots[i]) != [] && IsNormal(roots[i], Resolve(roots[i]))
  }

  /** Absolute settings that do not lead to the top give proper roots. */
  lemma AbsoluteSettingsAreProper(raw: string)
    requires IsAbsolute(raw) && Resolve(Slashed(raw)) != []
    ensures ProperRoots([SafePath(raw)])
  {
    SafePathIsNormal(raw);
    ResolveNormal(SafePath(raw), Resolve(Slashed(raw)));
  }

  /** With proper roots, an accepted path is free of `.` and `..` and lies below one of them. */
  lemma AllowedIsContained(path: string, roots: seq<string>)
    requires ProperRoots(roots) && AnyAccepts(roots, SafePath(path))
    ensures var safe := SafePath(path);
      && IsNormal(safe, Resolve(safe))
      && exists i :: 0 <= i < |roots| && Resolve(roots[i]) <= Resolve(safe)
  {
    hide SafePath, Resolve, IsNormal;
    var i :| 0 <= i < |roots| && Accepts(roots[i], SafePath(path));
    AcceptedIsContained(path, roots[i], Resolve(roots[i]));
  }

  /** A double slash as a root accepts everything, even a path that keeps a parent reference. */
  lemma DoubleSlashRootAcceptsAll(safe: string)
    requires StartsWith(safe, "/")
    ensures Accepts("//", safe)
  {
    assert IsNormal("//", []);
    AcceptsIff("//", [], safe);
  }

  // ------------------------------------------------------------------ uploads

  /** `posixpath.basename` of the slashed name, if it is a usable file name. */
  function SafeFilename(filename: string): Result<string> {
    var parts := SplitOn(Slashed(filename), '/');
    var name := parts[|parts| - 1];
    if name == "" || name == "." || name == ".." || '/' in name || '\\' in name then Raised else Ok(name)
  }

  /** `posixpath.join` with a name that has no slash. */
  function JoinName(dir: string, name: string): string {
    if dir == "" || dir[|dir| - 1] == '/' then dir + name else dir + "/" + name
  }

  method UploadTarget(remotePath: string, filename: string, roots: seq<string>) returns (r: Result<string>)
    ensures var name := SafeFilename(if filename == "" then "upload.bin" else filename);
      var dir := SafePath(SafePath(remotePath));
      r == if name.Ok? && AnyAccepts(roots, dir) && AnyAccepts(roots, SafePath(JoinName(dir, name.value)))
           then Ok(SafePath(JoinName(dir, name.value))) else Raised
  {
    hide SafePath, SafeFilename, AnyAccepts;
    var path := SafePath(remotePath);
    var name := SafeFilename(if filename == "" then "upload.bin" else filename);
    if name.Raised? {
      return Raised;
    }
    var dir := EnsurePathAllowed(path, roots);
    if dir.Raised? {
      return Raised;
    }
    r := EnsurePathAllowed(JoinName(dir.value, name.value), roots);
  }

  lemma JoinNameIsNormal(dir: string, names: seq<string>, name: string)
    requires IsNormal(dir, names) && IsName(name)
    ensures IsNormal(JoinName(dir, name), names + [name])
  {
    assert AllNames(names + [name]);
    if names == [] {
      assert [] + [name] == [name];
      assert "/" + name == "/" + JoinWith([name], '/') && "//" + name == "//" + JoinWith([name], '/');
    } else {
      JoinEndsWithName(names);
      JoinAppend(names, [name], '/');
      var s := JoinWith(names, '/');
      hide JoinWith, IsName;
      assert JoinWith(names + [name], '/') == s + "/" + name;
      assert dir[|dir| - 1] == s[|s| - 1];
      assert "/" + (s + "/" + name) == "/" + s + "/" + name && "//" + (s + "/" + name) == "//" + s + "/" + name;
    }
  }

  /** An upload into an absolute directory lands directly in that directory. */
  lemma UploadIsDirectChild(remotePath: string, filename: string)
    requires IsAbsolute(remotePath) && SafeFilename(filename).Ok?
    ensures var dir := SafePath(SafePath(remotePath));
      var target := SafePath(JoinName(dir, SafeFilename(filename).value));
      && Resolve(target) == Resolve(Slashed(remotePath)) + [SafeFilename(filename).value]
      && IsNormal(target, Resolve(target))
  {
    var names := Resolve(Slashed(remotePath));
    var name := SafeFilename(filename).value;
    assert IsName(name);
    SafePathIsNormal(remotePath);
    SafePathKeepsMeaning(remotePath);
    hide SafePath, Resolve, Slashed, SafeFilename, IsNormal, IsName;
    JoinNameIsNormal(SafePath(remotePath), names, name);
    NormalIsFixed(JoinName(SafePath(remotePath), name), names + [name]);
    ResolveNormal(JoinName(SafePath(remotePath), name), names + [name]);
  }

  // -------------------------------------------------- paths component by component

  lemma {:induction false} CollapseAppend(comps: seq<string>, parts: seq<string>, more: seq<string>, rooted: bool)
    ensures Collapse(comps, parts + more, rooted) == Collapse(Collapse(comps, parts, rooted), more, rooted)
    decreases parts
  {
    if parts == [] {
      assert parts + more == more;
    } else {
      assert (parts + more)[0] == parts[0] && (parts + more)[1..] == parts[1..] + more;
      CollapseAppend(AddComponent(comps, parts[0], rooted), parts[1..], more, rooted);
    }
  }

  lemma CollapseOne(comps: seq<string>, c: string, rooted: bool)
    ensures Collapse(comps, [c], rooted) == AddComponent(comps, c, rooted)
  {
    assert [c][1..] == [];
  }

  /**
   Where one component more leads from the root: an empty one and `.` stay, `..` goes to the parent, which the root
   has not, and a name goes below.
   */
  lemma ResolveOneMore(path: string, c: string)
    requires '\\' !in path && '/' !in c
    ensures Resolve("") == []
    ensures Resolve(c) == Resolve("/" + c)
    ensures c == "" || c == "." ==> Resolve(path + "/" + c) == Resolve(path)
    ensures c == ".." ==>
      Resolve(path + "/" + c) == if Resolve(path) == [] then [] else Resolve(path)[..|Resolve(path)| - 1]
    ensures c != "" && c != "." && c != ".." ==> Resolve(path + "/" + c) == Resolve(path) + [c]
  {
    EmptyResolves();
    SplitHasNoSeparators(path);
    RootedCollapseIsNames([], SplitOn(path, '/'));
    SplitAfterSlash(c);
    SplitOnAppend(path, c, '/');
    SplitOnOne(c, '/');
    hide SplitOn, Collapse;
    EmptyPartIsSkipped(SplitOn(c, '/'));
    CollapseAppend([], SplitOn(path, '/'), [c], true);
    CollapseOne(Resolve(path), c, true);
  }

  /** The components a relative path keeps, leading `..` included. */
  function RelativeParts(path: string): seq<string> { Collapse([], SplitOn(path, '/'), false) }

  /** For a relative path `..` removes a name before it; where there is none it stays. */
  lemma RelativeOneMore(path: string, c: string)
    requires '/' !in c
    ensures RelativeParts("") == []
    ensures RelativeParts(c) == RelativeParts("/" + c)
    ensures var before, after := RelativeParts(path), RelativeParts(path + "/" + c);
      && (c == "" || c == "." ==> after == before)
      && (c == ".." && before != [] && before[|before| - 1] != ".." ==> after == before[..|before| - 1])
      && (c == ".." && (before == [] || before[|before| - 1] == "..") ==> after == before + [".."])
      && (c != "" && c != "." && c != ".." ==> after == before + [c])
  {
    SplitAfterSlash(c);
    SplitOnAppend(path, c, '/');
    SplitOnOne(c, '/');
    SplitOnOne("", '/');
    hide SplitOn, Collapse;
    CollapseAppend([], SplitOn(path, '/'), [c], false);
    CollapseOne(RelativeParts(path), c, false);
    CollapseAppend([], [""], [c], false);
    assert [""] + [c] == [""] + SplitOn(c, '/');
    CollapseOne([], "", false);
    CollapseOne([], c, false);
  }

  lemma SlashesByChar(q: string)
    requires q != ""
    ensures StartsWith(q, "/") <==> q[0] == '/'
    ensures LeadingSlashes(q) ==
      if q[0] != '/' then "" else if |q| > 1 && q[1] == '/' && (|q| == 2 || q[2] != '/') then "//" else "/"
  {
    assert q[..1] == [q[0]];
    assert |q| > 1 ==> q[..2] == [q[0], q[1]];
    assert |q| > 2 ==> q[..3] == [q[0], q[1], q[2]];
  }

  predicate NonemptyParts(comps: seq<string>) {
    forall i :: 0 <= i < |comps| ==> comps[i] != "" && '/' !in comps[i]
  }

  lemma {:induction false} AddsToNothing(comps: seq<string>, parts: seq<string>)
    requires NoSeparators(parts) && NonemptyParts(comps)
    ensures NonemptyParts(Collapse(comps, parts, false))
    decreases parts
  {
    if parts != [] {
      AddsToNothing(AddComponent(comps, parts[0], false), parts[1..]);
    }
  }

  lemma RelativeStartsWithoutSlash(comps: seq<string>)
    requires NonemptyParts(comps)
    ensures var s := JoinWith(comps, '/'); (s == "" <==> comps == []) && !StartsWith(s, "/")
  {
    if comps != [] {
      var s := JoinWith(comps, '/');
      assert s[0] == comps[0][0];
    }
  }

  /**
   What normalization writes: after backslashes have become slashes, the components an absolute path resolves to behind
   one slash, or behind two when it starts with exactly two; those a relative path keeps behind one slash, or a dot.
   */
  lemma SafePathWrites(p: string)
    ensures var q := Slashed(if p == "" then "/" else p);
      SafePath(p) ==
        if q[0] == '/' then (if |q| > 1 && q[1] == '/' && (|q| == 2 || q[2] != '/') then "//" else "/")
                            + JoinWith(Resolve(q), '/')
        else "/" + if RelativeParts(q) == [] then "." else JoinWith(RelativeParts(q), '/')
    ensures |Slashed(p)| == |p| && forall i :: 0 <= i < |p| ==> Slashed(p)[i] == if p[i] == '\\' then '/' else p[i]
  {
    var q := Slashed(if p == "" then "/" else p);
    SlashedHasNoBackslash(if p == "" then "/" else p);
    SplitHasNoSeparators(q);
    SlashesByChar(q);
    if q[0] != '/' {
      AddsToNothing([], SplitOn(q, '/'));
      RelativeStartsWithoutSlash(RelativeParts(q));
    }
    hide SplitOn, Collapse, JoinWith;
  }

  // ------------------------------------------------------------- file names

  lemma {:induction false} LastPart(s: string)
    ensures var parts := SplitOn(s, '/');
      var last := parts[|parts| - 1];
      && '/' !in last && |last| <= |s| && last == s[|s| - |last|..]
      && (|last| < |s| ==> s[|s| - |last| - 1] == '/')
    decreases |s|
  {
    var i := Find(s, '/');
    if i < |s| {
      LastPart(s[i + 1..]);
    }
  }

  function NameOf(filename: string): string {
    var parts := SplitOn(Slashed(filename), '/');
    parts[|parts| - 1]
  }

  predicate IsSeparator(c: char) { c == '/' || c == '\\' }

  lemma UnslashedEnd(filename: string, n: nat)
    requires n <= |filename| && '/' !in Slashed(filename)[n..]
    ensures filename[n..] == Slashed(filename)[n..]
  {
    forall i | n <= i < |filename| ensures filename[i] == Slashed(filename)[i] {
      assert Slashed(filename)[n..][i - n] == Slashed(filename)[i];
    }
  }

  lemma CutAt(s: string, n: nat)
    requires n < |s|
    ensures s == s[..n] + [s[n]] + s[n + 1..]
  {
  }

  lemma EndIsUnslashed(filename: string, last: string)
    requires var s := Slashed(filename);
      && '/' !in last && |last| <= |s| && last == s[|s| - |last|..]
      && (|last| < |s| ==> s[|s| - |last| - 1] == '/')
    ensures last == filename || exists dir: string :: filename == dir + "/" + last || filename == dir + "\\" + last
  {
    var cut := |filename| - |last|;
    UnslashedEnd(filename, cut);
    if cut > 0 {
      CutAt(filename, cut - 1);
      assert filename[cut - 1] == '/' || filename[cut - 1] == '\\';
      hide Slashed;
      var dir := filename[..cut - 1];
      assert filename == dir + [filename[cut - 1]] + last;
    }
  }

  /** The last part is a separator-free end of the name, right behind a separator unless it is the whole. */
  lemma NameEnds(filename: string)
    ensures var last := NameOf(filename);
      && '/' !in last && '\\' !in last
      && (last == filename || exists dir: string :: filename == dir + "/" + last || filename == dir + "\\" + last)
  {
    LastPart(Slashed(filename));
    SlashedHasNoBackslash(filename);
    hide SplitOn;
    EndIsUnslashed(filename, NameOf(filename));
  }

  lemma SlashedCut(dir: string, c: char, name: string)
    requires IsSeparator(c) && '\\' !in name
    ensures Slashed(dir + [c] + name) == Slashed(dir) + ['/'] + name
  {
  }

  /** Two ends free of separators, each right behind one, are the same. */
  lemma NameAfter(filename: string, dir: string, c: char, name: string)
    requires filename == dir + [c] + name && IsSeparator(c) && '/' !in name && '\\' !in name
    ensures NameOf(filename) == name
  {
    SlashedCut(dir, c, name);
    SplitOnAppend(Slashed(dir), name, '/');
    SplitOnOne(name, '/');
  }

  /**
   The file name of an upload is what follows the last slash or backslash, or the whole name without one; it is refused
   exactly when that is empty, `.` or `..`.
   */
  lemma SafeFilenameIff(filename: string, name: string)
    ensures SafeFilename(filename) == Ok(name) <==>
      && name != "" && name != "." && name != ".." && '/' !in name && '\\' !in name
      && (filename == name
          || exists dir: string :: filename == dir + "/" + name || filename == dir + "\\" + name)
  {
    var last := NameOf(filename);
    NameEnds(filename);
    forall dir: string, c: char | filename == dir + [c] + name && (c == '/' || c == '\\')
      ensures '/' !in name && '\\' !in name ==> last == name
    {
      if '/' !in name && '\\' !in name {
        NameAfter(filename, dir, c, name);
      }
    }
    hide NameOf;
  }

  // ------------------------------------------------------- which roots there are

  ghost predicate IsField(parts: seq<string>, root: string) { exists part :: part in parts && Strip(part) == root }

  lemma {:induction false} StrippedAre(parts: seq<string>, root: string)
    ensures root in StrippedNonEmpty(parts) <==> root != "" && IsField(parts, root)
    decreases parts
  {
    hide Strip;
    if parts != [] {
      assert parts == [parts[0]] + parts[1..];
      StrippedAre(parts[1..], root);
    }
  }

  lemma {:induction false} StrippedAppend(a: seq<string>, b: seq<string>)
    ensures StrippedNonEmpty(a + b) == StrippedNonEmpty(a) + StrippedNonEmpty(b)
    decreases a
  {
    hide Strip;
    if a == [] {
      assert a + b == b;
    } else {
      assert (a + b)[0] == a[0] && (a + b)[1..] == a[1..] + b;
      StrippedAppend(a[1..], b);
    }
  }

  /** The roots of a setting: the list given, or the stripped, nonempty fields of a text; without any, the default. */
  lemma ConfiguredRootsAre(cfg: RootsConfig)
    ensures var roots, default := ConfiguredRoots(cfg), ["/data", "/opt", "/var/log", "/tmp"];
      match cfg
      case Unset => roots == default
      case Listed(items) => roots == if items == [] then default else items
      case Csv(text) =>
        && ((forall part :: part in SplitOn(text, ',') ==> Strip(part) == "") ==> roots == default)
        && ((exists part :: part in SplitOn(text, ',') && Strip(part) != "") ==>
          forall root :: root in roots <==> root != "" && IsField(SplitOn(text, ','), root))
  {
    hide Strip;
    if cfg.Csv? {
      var fields := SplitOn(cfg.text, ',');
      forall root: string
        ensures root in StrippedNonEmpty(fields) <==> root != "" && IsField(fields, root)
      {
        StrippedAre(fields, root);
      }
      hide StrippedNonEmpty, SplitOn;
      var roots := StrippedNonEmpty(fields);
      assert roots != [] ==> roots[0] in roots;
      forall part | part in fields && Strip(part) != "" ensures Strip(part) in roots {}
    }
  }

  /** For an absolute path a root other than the top is exactly the paths below it that start with as many slashes. */
  lemma AcceptsBelowIff(p: string, root: string, names: seq<string>)
    requires IsAbsolute(p) && IsNormal(root, names) && names != []
    ensures var safe := SafePath(p);
      Accepts(root, safe) <==> names <= Resolve(Slashed(p)) && (StartsWith(root, "//") <==> StartsWith(safe, "//"))
  {
    var safe, tail := SafePath(p), Resolve(Slashed(p));
    SafePathIsAbsolute(p);
    SafePathIsNormal(p);
    AcceptsIff(root, names, safe);
    SplitNormal(root, names);
    SplitNormal(safe, tail);
    TwoSlashesIff(root, names);
    TwoSlashesIff(safe, tail);
    hide SafePath, Slashed, SplitOn, JoinWith, Resolve, IsAbsolute, Accepts, StartsWith;
    PrefixIff(names, tail, root == "/" + JoinWith(names, '/'), safe == "/" + JoinWith(tail, '/'));
  }

  lemma TwoSlashesIff(path: string, names: seq<string>)
    requires IsNormal(path, names)
    ensures StartsWith(path, "//") <==> path != "/" + JoinWith(names, '/')
  {
    JoinedNames(names);
    var s := JoinWith(names, '/');
    hide JoinWith, AllNames;
    assert ("//" + s)[..2] == "//";
    assert s != "" ==> ("/" + s)[1] == s[0];
  }

  lemma PrefixIff(names: seq<string>, tail: seq<string>, one: bool, other: bool)
    requires AllNames(names) && AllNames(tail) && names != []
    ensures var prefix := (if one then [""] else ["", ""]) + names;
      var parts := (if other then [""] else ["", ""]) + if tail == [] then [""] else tail;
      prefix <= parts <==> names <= tail && one == other
  {
    var head, front := if one then [""] else ["", ""], if other then [""] else ["", ""];
    var prefix := head + names;
    var last := if tail == [] then [""] else tail;
    var parts := front + last;
    assert names[0] != "" && (tail != [] ==> tail[0] != "") by {
      assert IsName(names[0]) && (tail != [] ==> IsName(tail[0]));
    }
    if prefix <= parts {
      PrefixOfNormal(prefix, parts, names, tail);
      assert prefix[1] == parts[1];
    }
  }
}
