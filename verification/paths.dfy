/** PathHelper (IISHandler.cs): wildcard expansion, recursive directory
    discovery with reserved-folder exclusion, and virtual-path suggestion,
    together with the System.IO.Path pieces they rest on (Windows rules,
    .NET Framework behaviour). */
module Paths {
  import opened Outcomes
  import opened Seqs
  import opened Strs
  import opened Entities

  /** A directory and its subdirectories, in enumeration order. */
  datatype Dir = Dir(name: string, children: seq<Dir>)

  /** The machine a command runs on: its directory namespace (the children of
      root are the volumes, such as "C:"), the process's working directory,
      and the wildcard test Directory.GetDirectories applies to a child's
      name, which is left uninterpreted. */
  datatype Host = Host(root: Dir, cwd: string, matches: (string, string) -> bool)

  /** Where Directory.GetDirectories(path, pattern) searches and with what. */
  datatype Pattern = Pattern(dir: string, glob: string)

  const IllegalPath: string := "The path is not of a legal form."
  const EmptyOldValue: string := "String cannot be of zero length.\r\nParameter name: oldValue"

  // ---- System.IO.Path ----

  predicate IsDirSep(c: char) {
    c == '\\' || c == '/'
  }

  /** Path.GetFileName also stops at the volume separator. */
  predicate IsNameSep(c: char) {
    IsDirSep(c) || c == ':'
  }

  /** Path.GetFileName: the text after the last separator. */
  function FileName(path: string): (r: string)
    ensures forall i :: 0 <= i < |r| ==> !IsNameSep(r[i])
    ensures |r| <= |path| && path[|path| - |r|..] == r
    ensures |r| < |path| ==> IsNameSep(path[|path| - |r| - 1])
  {
    path[LastIndex(path, IsNameSep) + 1..]
  }

  /** A single path component: non-empty and free of separators. */
  predicate IsName(n: string) {
    |n| > 0 && forall j :: 0 <= j < |n| ==> !IsNameSep(n[j])
  }

  /** Path.IsPathRooted. */
  predicate IsRooted(p: string) {
    (|p| >= 1 && IsDirSep(p[0])) || (|p| >= 2 && p[1] == ':')
  }

  /** The end of a UNC root: from i, skip to the n-th separator. */
  function UncRootEnd(p: string, i: nat, n: int): (r: nat)
    requires i <= |p|
    ensures i <= r <= |p|
    ensures r < |p| ==> IsDirSep(p[r])
    ensures n <= 1 ==> forall j :: i <= j < r ==> !IsDirSep(p[j])
    decreases |p| - i
  {
    if i >= |p| then i
    else if !IsDirSep(p[i]) then UncRootEnd(p, i + 1, n)
    else if n - 1 > 0 then UncRootEnd(p, i + 1, n - 1)
    else i
  }

  /** Path.GetRootLength: "\", "C:", "C:\" or "\\server\share". */
  function RootLength(p: string): (r: nat)
    ensures r <= |p|
    ensures r > 0 <==> IsRooted(p)
    ensures |p| >= 3 && !IsDirSep(p[0]) && p[1] == ':' && IsDirSep(p[2]) ==> r == 3
    ensures |p| >= 2 && IsDirSep(p[0]) && IsDirSep(p[1]) ==> 2 <= r && (r < |p| ==> IsDirSep(p[r]))
  {
    if |p| >= 1 && IsDirSep(p[0]) then
      if |p| >= 2 && IsDirSep(p[1]) then UncRootEnd(p, 2, 2) else 1
    else if |p| >= 2 && p[1] == ':' then
      if |p| >= 3 && IsDirSep(p[2]) then 3 else 2
    else 0
  }

  /** Skipping ordinary characters does not change where a UNC root ends. */
  lemma {:induction false} UncRootSkip(p: string, i: nat, n: int, k: nat)
    requires i <= k <= |p|
    requires forall j :: i <= j < k ==> !IsDirSep(p[j])
    ensures UncRootEnd(p, i, n) == UncRootEnd(p, k, n)
    decreases k - i
  {
    if i < k {
      UncRootSkip(p, i + 1, n, k);
    }
  }

  /** The root of \\server\share\rest is \\server\share: it ends at
      the separator after the share name, or at the end of the path. */
  lemma UncRoot(server: string, share: string, rest: string)
    requires forall j :: 0 <= j < |server| ==> !IsDirSep(server[j])
    requires forall j :: 0 <= j < |share| ==> !IsDirSep(share[j])
    requires |rest| == 0 || IsDirSep(rest[0])
    ensures RootLength("\\\\" + server + "\\" + share + rest) == 3 + |server| + |share|
  {
    var p := "\\\\" + server + "\\" + share + rest;
    var a := 2 + |server|;
    var e := a + 1 + |share|;
    assert IsDirSep(p[0]) && IsDirSep(p[1]);
    assert forall j :: 2 <= j < a ==> p[j] == server[j - 2];
    UncRootSkip(p, 2, 2, a);
    assert p[a] == '\\';
    assert forall j :: a + 1 <= j < e ==> p[j] == share[j - a - 1];
    UncRootSkip(p, a + 1, 1, e);
    if e < |p| {
      assert p[e] == rest[0];
    }
  }

  /** Path.GetDirectoryName: the path up to its last separator at or after
      the root; None (null) for a root or shorter. */
  function DirectoryName(p: string): (r: Option<string>)
    ensures r.None? <==> |p| <= RootLength(p)
    ensures r.Some? ==> RootLength(p) <= |r.value| < |p| && r.value == p[..|r.value|]
    ensures r.Some? ==> forall j :: |r.value| < j < |p| ==> !IsDirSep(p[j])
    ensures r.Some? && |r.value| > RootLength(p) ==> IsDirSep(p[|r.value|])
  {
    var root := RootLength(p);
    if |p| <= root then None
    else
      var k := LastIndex(p[root..], IsDirSep);
      assert forall j :: root + k < j < |p| ==> p[j] == p[root..][j - root];
      Some(p[..if k >= 0 then root + k else root])
  }

  /** new DirectoryInfo(p).Name for a full path p: a root such as "C:\"
      names itself; a longer path names its last component. */
  function DirectoryInfoName(p: string): (r: Result<string>)
    ensures r.Fail? <==> p == ""
    ensures 0 < |p| <= 3 ==> r == Ok(p)
    ensures |p| > 3 ==> var q := if EndsWith(p, '\\') then p[..|p| - 1] else p;
      && r.Ok?
      && (forall i :: 0 <= i < |r.value| ==> !IsNameSep(r.value[i]))
      && |r.value| <= |q| && q[|q| - |r.value|..] == r.value
      && (|r.value| < |q| ==> IsNameSep(q[|q| - |r.value| - 1]))
  {
    if |p| == 0 then Fail(Argument(IllegalPath))
    else if |p| > 3 then Ok(FileName(if EndsWith(p, '\\') then p[..|p| - 1] else p))
    else Ok(p)
  }

  /** The name DirectoryInfo gives a subdirectory is the name it was
      combined from, with or without a trailing backslash. */
  lemma DirectoryInfoNameOfChild(parent: string, n: string)
    requires IsName(n)
    requires |Combine(parent, n)| > 3
    ensures DirectoryInfoName(Combine(parent, n)) == Ok(n)
    ensures DirectoryInfoName(Combine(parent, n) + "\\") == Ok(n)
  {
    var c := Combine(parent, n);
    CombineFileName(parent, n);
    assert c[|c| - 1] == n[|n| - 1];
    assert !EndsWith(c, '\\');
    assert DirectoryInfoName(c) == Ok(FileName(c));
    assert DirectoryInfoName(c + "\\") == Ok(FileName(c)) by {
      assert EndsWith(c + "\\", '\\');
      assert (c + "\\")[..|c|] == c;
    }
  }

  /** Path.Combine(a, b). */
  function Combine(a: string, b: string): (r: string)
    ensures |b| > 0 && !IsRooted(b) && |a| > 0 ==> StartsWith(r, a) && |r| > |a|
  {
    if |b| == 0 then a
    else if |a| == 0 || IsRooted(b) then b
    else if IsNameSep(a[|a| - 1]) then a + b
    else a + "\\" + b
  }

  /** GetFileName after a separator is the text after it. */
  lemma FileNameAfter(a: string, n: string)
    requires |a| > 0 && IsNameSep(a[|a| - 1])
    requires forall j :: 0 <= j < |n| ==> !IsNameSep(n[j])
    ensures FileName(a + n) == n
  {
    var p := a + n;
    assert p[|a| - 1] == a[|a| - 1];
    assert forall j :: |a| <= j < |p| ==> p[j] == n[j - |a|];
    assert LastIndex(p, IsNameSep) == |a| - 1;
    assert p[|a|..] == n;
  }

  /** GetFileName undoes Combine: combining a directory with a name and
      taking the last component gives the name back, and the combined path
      extends the directory. */
  lemma CombineFileName(a: string, n: string)
    requires IsName(n)
    ensures FileName(Combine(a, n)) == n
    ensures |a| > 0 ==> StartsWith(Combine(a, n), a) && |Combine(a, n)| > |a|
  {
    NameNotRooted(n);
    if |a| == 0 {
      assert LastIndex(n, IsNameSep) == -1;
    } else if IsNameSep(a[|a| - 1]) {
      FileNameAfter(a, n);
    } else {
      FileNameAfter(a + "\\", n);
      assert a + "\\" + n == (a + "\\") + n;
    }
  }

  /** Path.GetFullPath: rooted paths are kept, "." is the working
      directory, other relative paths are combined with it; no further
      normalisation. The empty path is rejected. */
  function FullPath(cwd: string, p: string): (r: Result<string>)
    ensures r.Fail? <==> p == ""
    ensures IsRooted(p) ==> r == Ok(p)
  {
    if |p| == 0 then Fail(Argument(IllegalPath))
    else if IsRooted(p) then Ok(p)
    else if p == "." then Ok(cwd)
    else Ok(Combine(cwd, p))
  }

  /** The non-empty components of a path, split at backslashes. */
  function Components(path: string): seq<string> {
    Keep(Split(path, '\\'), (x: string) => |x| > 0)
  }

  /** The directory reached from d by following the named children. */
  function Resolve(d: Dir, names: seq<string>): (r: Option<Dir>)
    ensures |names| == 0 ==> r == Some(d)
    decreases |names|
  {
    if |names| == 0 then Some(d)
    else match FirstIndex(d.children, (c: Dir) => c.name == names[0])
      case None => None
      case Some(k) => Resolve(d.children[k], names[1..])
  }

  /** The directory at an absolute path on the host, if it exists. */
  function Lookup(h: Host, path: string): Option<Dir> {
    Resolve(h.root, Components(path))
  }

  /** Full paths of the given subdirectories of the directory at path. */
  function ChildPaths(path: string, cs: seq<Dir>): (r: seq<string>)
    ensures |r| == |cs|
    ensures forall i :: 0 <= i < |cs| ==> r[i] == Combine(path, cs[i].name)
    ensures forall i :: 0 <= i < |cs| && IsName(cs[i].name) ==>
      FileName(r[i]) == cs[i].name && (|path| > 0 ==> StartsWith(r[i], path) && |r[i]| > |path|)
  {
    var r := seq(|cs|, i requires 0 <= i < |cs| => Combine(path, cs[i].name));
    assert forall i :: 0 <= i < |cs| && IsName(cs[i].name) ==>
      FileName(r[i]) == cs[i].name && (|path| > 0 ==> StartsWith(r[i], path) && |r[i]| > |path|) by {
      forall i | 0 <= i < |cs| && IsName(cs[i].name)
        ensures FileName(r[i]) == cs[i].name && (|path| > 0 ==> StartsWith(r[i], path) && |r[i]| > |path|)
      {
        CombineFileName(path, cs[i].name);
      }
    }
    r
  }

  // ---- PathHelper ----

  /** A name is reserved when it starts with "app_" or is "bin", ignoring
      the case of letters. */
  predicate IsReservedName(n: string) {
    || (|n| >= 4 && n[0] in "aA" && n[1] in "pP" && n[2] in "pP" && n[3] == '_')
    || (|n| == 3 && n[0] in "bB" && n[1] in "iI" && n[2] in "nN")
  }

  /** Lower-casing and then comparing with lower-case text is the
      case-insensitive comparison IsReservedName spells out. */
  lemma LowerReserved(n: string)
    ensures (StartsWith(Lower(n), "app_") || Lower(n) == "bin") <==> IsReservedName(n)
  {
    var l := Lower(n);
    if |n| >= 4 {
      assert StartsWith(l, "app_") <==> l[0] == 'a' && l[1] == 'p' && l[2] == 'p' && l[3] == '_';
    }
    if |n| == 3 {
      assert l == "bin" <==> l[0] == 'b' && l[1] == 'i' && l[2] == 'n';
    }
  }

  /** PathHelper.IsExcludedFolder: the last component, lower-cased, starts
      with "app_" or is "bin". */
  function IsExcludedFolder(path: string): (r: bool)
    ensures r <==> IsReservedName(FileName(path))
  {
    var n := FileName(path);
    LowerReserved(n);
    StartsWith(Lower(n), "app_") || Lower(n) == "bin"
  }

  /** PathHelper.ContainsWildcard. */
  function ContainsWildcard(path: string): (r: bool)
    ensures r <==> exists i :: 0 <= i < |path| && path[i] == '*'
  {
    '*' in path
  }

  /** The split ExpandWildcardDirectories makes: the pattern is what follows
      the last backslash, the directory what precedes it (backslash
      included), and "." when there is no backslash. */
  function SplitPattern(path: string): (r: Pattern)
    ensures '\\' !in r.glob
    ensures '\\' in path ==> r.dir + r.glob == path && EndsWith(r.dir, '\\')
    ensures '\\' !in path ==> r.dir == "." && r.glob == path
  {
    var k := LastIndex(path, (c: char) => c == '\\') + 1;
    var glob := path[k..];
    var dir := path[..|path| - |glob|];
    assert dir + glob == path;
    assert forall i :: 0 <= i < |glob| ==> glob[i] == path[k + i];
    Pattern(if |dir| == 0 then "." else dir, glob)
  }

  /** PathHelper.ExpandWildcardDirectories: the full paths of the
      subdirectories of the pattern's directory whose names match its glob,
      in enumeration order; DirectoryNotFoundException if the directory
      does not exist. */
  function ExpandWildcardDirectories(h: Host, path: string): (r: Result<seq<string>>)
    ensures var pat := SplitPattern(path);
      var abs := FullPath(h.cwd, pat.dir);
      abs.Ok? &&
      match Lookup(h, abs.value)
      case None => r == Fail(DirectoryNotFound(abs.value))
      case Some(d) =>
        && r.Ok?
        && r.value == ChildPaths(abs.value, Keep(d.children, Matching(h, pat.glob)))
        && |r.value| <= |d.children|
        && forall x :: x in r.value <==>
             exists i :: 0 <= i < |d.children| && h.matches(pat.glob, d.children[i].name)
                         && x == Combine(abs.value, d.children[i].name)
  {
    var pat := SplitPattern(path);
    match FullPath(h.cwd, pat.dir)
    case Fail(e) => Fail(e)
    case Ok(abs) =>
      match Lookup(h, abs)
      case None => Fail(DirectoryNotFound(abs))
      case Some(d) =>
        var hits := Keep(d.children, Matching(h, pat.glob));
        var r := ChildPaths(abs, hits);
        assert forall x :: x in r <==>
          exists i :: 0 <= i < |d.children| && h.matches(pat.glob, d.children[i].name)
                      && x == Combine(abs, d.children[i].name) by {
          forall x | x in r
            ensures exists i :: 0 <= i < |d.children| && h.matches(pat.glob, d.children[i].name)
                                && x == Combine(abs, d.children[i].name)
          {
            var j :| 0 <= j < |r| && r[j] == x;
            assert hits[j] in d.children;
            var i :| 0 <= i < |d.children| && d.children[i] == hits[j];
          }
          forall i | 0 <= i < |d.children| && h.matches(pat.glob, d.children[i].name)
            ensures Combine(abs, d.children[i].name) in r
          {
            assert d.children[i] in hits;
            var j :| 0 <= j < |hits| && hits[j] == d.children[i];
            assert r[j] == Combine(abs, d.children[i].name);
          }
        }
        Ok(r)
  }

  /** The wildcard test on a subdirectory's name. */
  function Matching(h: Host, glob: string): Dir -> bool {
    (c: Dir) => h.matches(glob, c.name)
  }

  /** The subdirectories of d have pairwise different names. */
  predicate DistinctNames(d: Dir) {
    forall i, j :: 0 <= i < j < |d.children| ==> d.children[i].name != d.children[j].name
  }

  /** Distinct subdirectories of a well-named directory whose names are
      distinct have distinct full paths. */
  lemma ChildPathsDistinct(path: string, cs: seq<Dir>, d: Dir)
    requires WellNamed(d) && DistinctNames(d)
    requires forall k :: 0 <= k < |cs| ==> cs[k] in d.children
    requires NoDup(cs)
    ensures NoDup(ChildPaths(path, cs))
  {
    var r := ChildPaths(path, cs);
    forall a, b | 0 <= a < b < |r|
      ensures r[a] != r[b]
    {
      var i :| 0 <= i < |d.children| && d.children[i] == cs[a];
      var j :| 0 <= j < |d.children| && d.children[j] == cs[b];
      assert IsName(cs[a].name) && IsName(cs[b].name);
      assert i != j by { assert cs[a] != cs[b]; }
      assert cs[a].name != cs[b].name by {
        if i < j { assert d.children[i].name != d.children[j].name; }
        else { assert d.children[j].name != d.children[i].name; }
      }
      assert FileName(r[a]) != FileName(r[b]);
    }
  }

  /** Subdirectories with different names have different expanded paths:
      when the names under the pattern's directory are distinct, so are the
      entries of the result, and each entry's last component is a name the
      pattern matched. */
  lemma ExpandedDistinct(h: Host, path: string, d: Dir)
    requires var abs := FullPath(h.cwd, SplitPattern(path).dir);
      abs.Ok? && Lookup(h, abs.value) == Some(d)
    requires WellNamed(d) && DistinctNames(d)
    ensures var r := ExpandWildcardDirectories(h, path);
      && r.Ok?
      && NoDup(r.value)
      && (forall x :: x in r.value ==> h.matches(SplitPattern(path).glob, FileName(x)))
  {
    var pat := SplitPattern(path);
    var abs := FullPath(h.cwd, pat.dir).value;
    var hits := Keep(d.children, Matching(h, pat.glob));
    assert ExpandWildcardDirectories(h, path) == Ok(ChildPaths(abs, hits));
    HitsDistinct(d, Matching(h, pat.glob));
    ChildPathsDistinct(abs, hits, d);
    HitNamesMatch(h, pat.glob, abs, d);
  }

  /** The subdirectories a test selects are subdirectories, and without
      repeats when the names are distinct. */
  lemma HitsDistinct(d: Dir, p: Dir -> bool)
    requires DistinctNames(d)
    ensures forall k :: 0 <= k < |Keep(d.children, p)| ==> Keep(d.children, p)[k] in d.children
    ensures NoDup(Keep(d.children, p))
  {
    assert NoDup(d.children) by {
      forall i, j | 0 <= i < j < |d.children|
        ensures d.children[i] != d.children[j]
      {
        assert d.children[i].name != d.children[j].name;
      }
    }
    FilterDistinct(d.children, p, true);
  }

  /** The last component of every expanded path is a name the glob matched. */
  lemma HitNamesMatch(h: Host, glob: string, abs: string, d: Dir)
    requires WellNamed(d)
    ensures forall x :: x in ChildPaths(abs, Keep(d.children, Matching(h, glob))) ==> h.matches(glob, FileName(x))
  {
    var hits := Keep(d.children, Matching(h, glob));
    var r := ChildPaths(abs, hits);
    forall x | x in r
      ensures h.matches(glob, FileName(x))
    {
      var k :| 0 <= k < |r| && r[k] == x;
      assert hits[k] in d.children;
      var i :| 0 <= i < |d.children| && d.children[i] == hits[k];
      assert IsName(hits[k].name);
      assert Matching(h, glob)(hits[k]);
    }
  }

  // ---- GetDirectoriesRecursively ----

  /** The source's recursion, on the directory d found at path: the
      immediate subdirectories, then each one's own result in turn, and
      then a second pass that removes (List.Remove, one call per hit)
      every collected entry whose last component is reserved. */
  function DirectoriesBelow(path: string, d: Dir): (r: seq<string>)
    ensures forall x :: x in r ==> !IsExcludedFolder(x)
    ensures forall x :: x in ChildPaths(path, d.children) && !IsExcludedFolder(x) ==> x in r
    decreases d, 1
  {
    var dirs := ChildPaths(path, d.children) + DirectoriesBelowFrom(path, d, 0);
    RemoveEachKept(dirs, IsExcludedFolder);
    RemoveEach(dirs, Keep(dirs, IsExcludedFolder))
  }

  /** The results of the recursive calls for the children of d from i on. */
  function DirectoriesBelowFrom(path: string, d: Dir, i: nat): (r: seq<string>)
    requires i <= |d.children|
    ensures forall x :: x in r ==> !IsExcludedFolder(x)
    decreases d, 0, |d.children| - i
  {
    if i == |d.children| then []
    else
      var c := d.children[i];
      DirectoriesBelow(Combine(path, c.name), c) + DirectoriesBelowFrom(path, d, i + 1)
  }

  /** Every proper descendant of d, unfiltered and each once: the immediate
      subdirectories, then each one's descendants in turn. */
  function Descendants(path: string, d: Dir): seq<string>
    decreases d, 1
  {
    ChildPaths(path, d.children) + DescendantsFrom(path, d, 0)
  }

  /** The descendants of the children of d from i on. */
  function DescendantsFrom(path: string, d: Dir, i: nat): seq<string>
    requires i <= |d.children|
    decreases d, 0, |d.children| - i
  {
    if i == |d.children| then []
    else
      var c := d.children[i];
      Descendants(Combine(path, c.name), c) + DescendantsFrom(path, d, i + 1)
  }

  /** The number of directories in a tree, its root included. */
  function Size(d: Dir): nat
    decreases d, 1
  {
    1 + SizeFrom(d, 0)
  }

  function SizeFrom(d: Dir, i: nat): nat
    requires i <= |d.children|
    decreases d, 0, |d.children| - i
  {
    if i == |d.children| then 0 else Size(d.children[i]) + SizeFrom(d, i + 1)
  }

  /** Directory names are non-empty and free of separators all the way down. */
  predicate WellNamed(d: Dir)
    decreases d
  {
    forall i :: 0 <= i < |d.children| ==> IsName(d.children[i].name) && WellNamed(d.children[i])
  }

  /** PathHelper.GetDirectoriesRecursively: the directory is looked up at
      the full path; DirectoryNotFoundException if it is missing. */
  function GetDirectoriesRecursively(h: Host, path: string): (r: Result<seq<string>>)
    ensures path == "" ==> r.Fail?
    ensures path != "" ==> var abs := FullPath(h.cwd, path).value;
      match Lookup(h, abs)
      case None => r == Fail(DirectoryNotFound(abs))
      case Some(d) =>
        && r.Ok?
        && r.value == Reject(Descendants(abs, d), IsExcludedFolder)
        && forall x :: x in r.value <==> x in Descendants(abs, d) && !IsExcludedFolder(x)
  {
    match FullPath(h.cwd, path)
    case Fail(e) => Fail(e)
    case Ok(abs) =>
      match Lookup(h, abs)
      case None => Fail(DirectoryNotFound(abs))
      case Some(d) =>
        DirectoriesBelowFiltersDescendants(abs, d);
        Ok(DirectoriesBelow(abs, d))
  }

  /** The two-pass scan is one filter over all descendants: re-filtering at
      every level changes nothing, and an excluded directory's own
      subdirectories are still judged by their own names. */
  lemma {:induction false} DirectoriesBelowFiltersDescendants(path: string, d: Dir)
    ensures DirectoriesBelow(path, d) == Reject(Descendants(path, d), IsExcludedFolder)
    decreases d, 1
  {
    var kids := ChildPaths(path, d.children);
    var dirs := kids + DirectoriesBelowFrom(path, d, 0);
    RemoveEachKept(dirs, IsExcludedFolder);
    DirectoriesBelowFromFilters(path, d, 0);
    var rest := DescendantsFrom(path, d, 0);
    calc {
      DirectoriesBelow(path, d);
      Filter(dirs, IsExcludedFolder, false);
      Filter(kids + Filter(rest, IsExcludedFolder, false), IsExcludedFolder, false);
      { FilterConcat(kids, Filter(rest, IsExcludedFolder, false), IsExcludedFolder, false); }
      Filter(kids, IsExcludedFolder, false) + Filter(Filter(rest, IsExcludedFolder, false), IsExcludedFolder, false);
      { FilterIdempotent(rest, IsExcludedFolder, false); }
      Filter(kids, IsExcludedFolder, false) + Filter(rest, IsExcludedFolder, false);
      { FilterConcat(kids, rest, IsExcludedFolder, false); }
      Filter(kids + rest, IsExcludedFolder, false);
    }
  }

  lemma {:induction false} DirectoriesBelowFromFilters(path: string, d: Dir, i: nat)
    requires i <= |d.children|
    ensures DirectoriesBelowFrom(path, d, i) == Reject(DescendantsFrom(path, d, i), IsExcludedFolder)
    decreases d, 0, |d.children| - i
  {
    if i < |d.children| {
      var c := d.children[i];
      var p := Combine(path, c.name);
      DirectoriesBelowFiltersDescendants(p, c);
      DirectoriesBelowFromFilters(path, d, i + 1);
      FilterConcat(Descendants(p, c), DescendantsFrom(path, d, i + 1), IsExcludedFolder, false);
    }
  }

  /** Each directory of the tree below the root appears exactly once among
      the descendants: there are Size(d) - 1 of them. */
  lemma {:induction false} DescendantsCount(path: string, d: Dir)
    ensures |Descendants(path, d)| == Size(d) - 1
    decreases d, 1
  {
    DescendantsFromCount(path, d, 0);
    ChildCount(d, 0);
  }

  lemma {:induction false} DescendantsFromCount(path: string, d: Dir, i: nat)
    requires i <= |d.children|
    ensures |DescendantsFrom(path, d, i)| + (|d.children| - i) == SizeFrom(d, i)
    decreases d, 0, |d.children| - i
  {
    if i < |d.children| {
      var c := d.children[i];
      DescendantsCount(Combine(path, c.name), c);
      DescendantsFromCount(path, d, i + 1);
    }
  }

  lemma {:induction false} ChildCount(d: Dir, i: nat)
    requires i <= |d.children|
    ensures SizeFrom(d, i) >= |d.children| - i
    decreases |d.children| - i
  {
    if i < |d.children| {
      ChildCount(d, i + 1);
    }
  }

  /** Every descendant's path extends the root's path, so the root itself is
      never among them. */
  lemma {:induction false} DescendantsExtendRoot(path: string, d: Dir)
    requires |path| > 0
    requires WellNamed(d)
    ensures forall x :: x in Descendants(path, d) ==> StartsWith(x, path) && |x| > |path|
    decreases d, 1
  {
    var kids := ChildPaths(path, d.children);
    forall x | x in kids
      ensures StartsWith(x, path) && |x| > |path|
    {
      var i :| 0 <= i < |kids| && kids[i] == x;
      NameNotRooted(d.children[i].name);
    }
    DescendantsFromExtendRoot(path, d, 0);
  }

  lemma {:induction false} DescendantsFromExtendRoot(path: string, d: Dir, i: nat)
    requires |path| > 0
    requires WellNamed(d)
    requires i <= |d.children|
    ensures forall x :: x in DescendantsFrom(path, d, i) ==> StartsWith(x, path) && |x| > |path|
    decreases d, 0, |d.children| - i
  {
    if i < |d.children| {
      var c := d.children[i];
      var p := Combine(path, c.name);
      NameNotRooted(c.name);
      DescendantsExtendRoot(p, c);
      DescendantsFromExtendRoot(path, d, i + 1);
      forall x | x in Descendants(p, c)
        ensures StartsWith(x, path) && |x| > |path|
      {
        assert x[..|path|] == x[..|p|][..|path|];
      }
    }
  }

  /** A non-empty name without separators is not a rooted path. */
  lemma NameNotRooted(n: string)
    requires |n| > 0
    requires forall j :: 0 <= j < |n| ==> !IsNameSep(n[j])
    ensures !IsRooted(n)
  {
    if |n| >= 2 {
      assert !IsNameSep(n[1]);
    }
    assert !IsNameSep(n[0]);
  }

  /** The root is never returned, and an entry is returned exactly when it
      is a descendant whose own last component is not reserved, whatever
      its ancestors are called. */
  lemma GetDirectoriesRecursivelyMembership(h: Host, path: string, d: Dir)
    requires IsRooted(path)
    requires Lookup(h, path) == Some(d)
    requires WellNamed(d)
    ensures GetDirectoriesRecursively(h, path).Ok?
    ensures path !in GetDirectoriesRecursively(h, path).value
    ensures forall x :: x in GetDirectoriesRecursively(h, path).value <==>
      x in Descendants(path, d) && !IsReservedName(FileName(x))
  {
    DescendantsExtendRoot(path, d);
  }

  // ---- SuggestVirtualDirectory ----

  /** Drops one trailing "/": the result is a prefix of v, v is the
      result followed by "/" when v ends with one, and any other v is kept. */
  function TrimSlash(v: string): (r: string)
    ensures StartsWith(v, r) && |v| - 1 <= |r|
    ensures EndsWith(v, '/') ==> r + "/" == v
    ensures !EndsWith(v, '/') ==> r == v
  {
    if EndsWith(v, '/') then
      assert v[..|v| - 1] + "/" == v;
      v[..|v| - 1]
    else v
  }

  /** Unless v ends with "//", trimming leaves no trailing "/", so trimming
      again changes nothing. */
  lemma TrimSlashIdempotent(v: string)
    requires !(|v| >= 2 && v[|v| - 2] == '/' && v[|v| - 1] == '/')
    ensures !EndsWith(TrimSlash(v), '/')
    ensures TrimSlash(TrimSlash(v)) == TrimSlash(v)
  {
    if EndsWith(v, '/') && |v| >= 2 {
      assert TrimSlash(v)[|v| - 2] == v[|v| - 2];
    }
  }

  /** PathHelper.SuggestVirtualDirectory: relative to the physical path of
      the site's first application. A path that starts with it (as text)
      has every occurrence of it removed, backslashes turned into slashes
      and one trailing slash dropped; any other path is mapped to "/" and
      the name of its parent directory. */
  function SuggestVirtualDirectory(h: Host, site: Site, path: string): (r: Result<string>)
    ensures |site.apps| == 0 ==> r == Ok("")
    ensures |site.apps| > 0 && path == "" ==> r.Fail?
    ensures |site.apps| > 0 && r.Ok? && StartsWith(FullPath(h.cwd, path).value, site.apps[0].ppath)
      ==> '\\' !in r.value
    ensures |site.apps| > 0 && path != "" && !StartsWith(FullPath(h.cwd, path).value, site.apps[0].ppath)
      ==> (r.Ok? <==> DirectoryName(FullPath(h.cwd, path).value).Some? && DirectoryName(FullPath(h.cwd, path).value).value != "")
    ensures |site.apps| > 0 && r.Ok? && !StartsWith(FullPath(h.cwd, path).value, site.apps[0].ppath)
      ==> StartsWith(r.value, "/")
  {
    if |site.apps| == 0 then Ok("")
    else
      var top := site.apps[0].ppath;
      match FullPath(h.cwd, path)
      case Fail(e) => Fail(e)
      case Ok(appPath) =>
        if StartsWith(appPath, top) then
          if |top| == 0 then Fail(Argument(EmptyOldValue))
          else Ok(TrimSlash(ReplaceChar(ReplaceAll(appPath, top, ""), '\\', '/')))
        else
          match DirectoryName(appPath)
          case None => Fail(ArgumentNull("path"))
          case Some(parent) =>
            match DirectoryInfoName(parent)
            case Fail(e) => Fail(e)
            case Ok(n) => Ok("/" + n)
  }

  /** Under the root, the suggestion is the rewritten text after the root. */
  lemma SuggestUnderRootUnfold(h: Host, site: Site, suffix: string)
    requires |site.apps| > 0
    requires IsRooted(site.apps[0].ppath)
    ensures var top := site.apps[0].ppath;
      SuggestVirtualDirectory(h, site, top + suffix)
        == Ok(TrimSlash(ReplaceChar(ReplaceAll(suffix, top, ""), '\\', '/')))
  {
    var top := site.apps[0].ppath;
    var p := top + suffix;
    assert IsRooted(p) by {
      assert p[0] == top[0];
      if |top| >= 2 { assert p[1] == top[1]; }
    }
    assert FullPath(h.cwd, p) == Ok(p);
    assert StartsWith(p, top) by { assert p[..|top|] == top; }
    ReplaceAllLeading(top, suffix);
  }

  /** A leading occurrence of the root is the first one replaced. */
  lemma ReplaceAllLeading(top: string, suffix: string)
    requires |top| > 0
    ensures ReplaceAll(top + suffix, top, "") == ReplaceAll(suffix, top, "")
  {
    var p := top + suffix;
    assert p[..|top|] == top;
    assert p[|top|..] == suffix;
  }

  /** Turning the slashes of a suggestion under the root back into
      backslashes and appending it to the root gives the path back. */
  lemma SuggestUnderRoot(h: Host, site: Site, suffix: string)
    requires |site.apps| > 0
    requires IsRooted(site.apps[0].ppath)
    requires forall i :: !OccursAt(suffix, site.apps[0].ppath, i)
    requires '/' !in suffix
    requires !EndsWith(suffix, '\\')
    ensures var r := SuggestVirtualDirectory(h, site, site.apps[0].ppath + suffix);
      && r.Ok?
      && '\\' !in r.value
      && site.apps[0].ppath + ReplaceChar(r.value, '/', '\\') == site.apps[0].ppath + suffix
  {
    var top := site.apps[0].ppath;
    SuggestUnderRootUnfold(h, site, suffix);
    ReplaceAllAbsent(suffix, top, "");
    var v := ReplaceChar(suffix, '\\', '/');
    assert !EndsWith(v, '/') by {
      if |suffix| > 0 {
        assert suffix[|suffix| - 1] != '/';
      }
    }
    assert ReplaceChar(v, '/', '\\') == suffix;
  }

  /** The physical root of the site itself is suggested as "". */
  lemma SuggestRootItself(h: Host, site: Site)
    requires |site.apps| > 0
    requires IsRooted(site.apps[0].ppath)
    ensures SuggestVirtualDirectory(h, site, site.apps[0].ppath) == Ok("")
  {
    var top := site.apps[0].ppath;
    SuggestUnderRootUnfold(h, site, "");
    assert top + "" == top;
    assert ReplaceAll("", top, "") == "";
    assert ReplaceChar("", '\\', '/') == "";
  }

  /** A path that does not start with the root is named after its parent
      directory, not after itself. */
  lemma SuggestOutsideRoot(h: Host, site: Site, parent: string, leaf: string)
    requires |site.apps| > 0
    requires |parent| > 3 && !IsDirSep(parent[0]) && parent[1] == ':' && IsDirSep(parent[2])
    requires !IsDirSep(parent[|parent| - 1])
    requires |leaf| > 0 && forall j :: 0 <= j < |leaf| ==> !IsDirSep(leaf[j])
    requires !StartsWith(parent + "\\" + leaf, site.apps[0].ppath)
    ensures SuggestVirtualDirectory(h, site, parent + "\\" + leaf) == Ok("/" + FileName(parent))
  {
    var p := parent + "\\" + leaf;
    assert IsRooted(p) by { assert p[1] == parent[1]; }
    assert FullPath(h.cwd, p) == Ok(p);
    DirectoryNameOfChild(parent, leaf);
    assert DirectoryInfoName(parent) == Ok(FileName(parent));
  }

  /** GetDirectoryName of a drive path with one more component is the
      path it was extended from. */
  lemma DirectoryNameOfChild(parent: string, leaf: string)
    requires |parent| > 3 && !IsDirSep(parent[0]) && parent[1] == ':' && IsDirSep(parent[2])
    requires !IsDirSep(parent[|parent| - 1])
    requires |leaf| > 0 && forall j :: 0 <= j < |leaf| ==> !IsDirSep(leaf[j])
    ensures DirectoryName(parent + "\\" + leaf) == Some(parent)
  {
    var p := parent + "\\" + leaf;
    assert p[0] == parent[0] && p[1] == parent[1] && p[2] == parent[2];
    assert RootLength(p) == 3;
    var dn := DirectoryName(p);
    assert p[|parent|] == '\\';
    assert forall j :: |parent| < j < |p| ==> !IsDirSep(p[j]) by {
      forall j | |parent| < j < |p| ensures !IsDirSep(p[j]) {
        assert p[j] == leaf[j - |parent| - 1];
      }
    }
    assert dn.Some?;
    assert |dn.value| == |parent|;
    assert dn.value == p[..|parent|] == parent;
  }


  /** Worked example: C:\www\blog under C:\www is suggested as /blog. */
  lemma SuggestChildExample(h: Host, site: Site)
    requires |site.apps| > 0 && site.apps[0].ppath == "C:\\www"
    ensures SuggestVirtualDirectory(h, site, "C:\\www\\blog") == Ok("/blog")
  {
    var top := "C:\\www";
    SuggestUnderRootUnfold(h, site, "\\blog");
    assert top + "\\blog" == "C:\\www\\blog";
    assert ReplaceAll("\\blog", top, "") == "\\blog";
    assert ReplaceChar("\\blog", '\\', '/') == "/blog";
  }

  /** A sibling whose name merely extends the root's text counts as under
      the root: it is suggested as the rest of its name, without the
      leading slash a virtual path needs (C:\www2 under C:\www gives "2"). */
  lemma SuggestSiblingWithoutSlash(h: Host, site: Site, rest: string)
    requires |site.apps| > 0
    requires IsRooted(site.apps[0].ppath)
    requires |rest| > 0 && !IsDirSep(rest[0])
    requires forall i :: !OccursAt(rest, site.apps[0].ppath, i)
    requires '/' !in rest && !EndsWith(rest, '\\')
    ensures var r := SuggestVirtualDirectory(h, site, site.apps[0].ppath + rest);
      r.Ok? && |r.value| == |rest| && !StartsWith(r.value, "/")
  {
    var top := site.apps[0].ppath;
    SuggestUnderRootUnfold(h, site, rest);
    ReplaceAllAbsent(rest, top, "");
    SlashedUntrimmed(rest);
  }

  /** A text that neither starts with a separator nor ends with one keeps
      its length and gains no leading "/" when its backslashes become
      slashes and a trailing "/" is trimmed. */
  lemma SlashedUntrimmed(rest: string)
    requires |rest| > 0 && !IsDirSep(rest[0])
    requires '/' !in rest && !EndsWith(rest, '\\')
    ensures var v := TrimSlash(ReplaceChar(rest, '\\', '/'));
      |v| == |rest| && !StartsWith(v, "/")
  {
    var v := ReplaceChar(rest, '\\', '/');
    assert v[0] == rest[0];
    assert v[|v| - 1] != '/' by {
      assert rest[|rest| - 1] != '/' && rest[|rest| - 1] != '\\';
    }
    assert TrimSlash(v) == v;
  }

  /** Worked example: D:\other\photos, outside C:\www, is suggested as
      /other, the name of its parent. */
  lemma SuggestOutsideExample(h: Host, site: Site)
    requires |site.apps| > 0 && site.apps[0].ppath == "C:\\www"
    ensures SuggestVirtualDirectory(h, site, "D:\\other\\photos") == Ok("/other")
  {
    var o := "D:\\other";
    assert o + "\\" + "photos" == "D:\\other\\photos";
    assert !StartsWith("D:\\other\\photos", "C:\\www") by {
      assert "D:\\other\\photos"[0] != "C:\\www"[0];
    }
    SuggestOutsideRoot(h, site, o, "photos");
    OtherName();
  }

  /** A path directly below a drive root, outside the site's root, is named
      after the drive root itself, so its suggestion keeps the root's
      backslash: the no-backslash promise holds only under the site's root. */
  lemma SuggestBelowDriveRoot(h: Host, site: Site, d: char, leaf: string)
    requires |site.apps| > 0
    requires !IsDirSep(d)
    requires |leaf| > 0 && forall j :: 0 <= j < |leaf| ==> !IsDirSep(leaf[j])
    requires !StartsWith([d, ':', '\\'] + leaf, site.apps[0].ppath)
    ensures SuggestVirtualDirectory(h, site, [d, ':', '\\'] + leaf) == Ok("/" + [d, ':', '\\'])
    ensures '\\' in SuggestVirtualDirectory(h, site, [d, ':', '\\'] + leaf).value
  {
    var root := [d, ':', '\\'];
    var p := root + leaf;
    assert p[0] == d && p[1] == ':' && p[2] == '\\';
    assert FullPath(h.cwd, p) == Ok(p);
    assert RootLength(p) == 3;
    var dn := DirectoryName(p);
    assert dn.Some?;
    assert forall j :: 3 <= j < |p| ==> !IsDirSep(p[j]) by {
      forall j | 3 <= j < |p| ensures !IsDirSep(p[j]) {
        assert p[j] == leaf[j - 3];
      }
    }
    assert |dn.value| == 3;
    assert dn.value == p[..3] == root;
    assert DirectoryInfoName(root) == Ok(root);
    assert ("/" + root)[3] == '\\';
  }

  /** Worked example: D:\photos outside C:\www is suggested as "/D:\". */
  lemma SuggestDriveRootExample(h: Host, site: Site)
    requires |site.apps| > 0 && site.apps[0].ppath == "C:\\www"
    ensures SuggestVirtualDirectory(h, site, "D:\\photos") == Ok("/D:\\")
  {
    assert ['D', ':', '\\'] + "photos" == "D:\\photos";
    assert !StartsWith("D:\\photos", "C:\\www") by {
      assert "D:\\photos"[0] != "C:\\www"[0];
    }
    SuggestBelowDriveRoot(h, site, 'D', "photos");
    assert "/" + ['D', ':', '\\'] == "/D:\\";
  }

  lemma OtherName()
    ensures "/" + FileName("D:\\other") == "/other"
  {
    var o := "D:\\other";
    assert IsNameSep(o[2]);
    assert forall j :: 2 < j < |o| ==> !IsNameSep(o[j]);
    assert LastIndex(o, IsNameSep) == 2;
    assert o[3..] == "other";
  }

  // ---- Exclusion examples ----

  /** The last component of dir\name is name, when name has no separator. */
  lemma FileNameOfChild(dir: string, n: string)
    requires forall j :: 0 <= j < |n| ==> !IsNameSep(n[j])
    ensures FileName(dir + "\\" + n) == n
    ensures FileName(n) == n
  {
    var p := dir + "\\" + n;
    assert p[|dir|] == '\\';
    assert forall j :: |dir| < j < |p| ==> p[j] == n[j - |dir| - 1];
    assert LastIndex(p, IsNameSep) == |dir|;
    assert p[|dir| + 1..] == n;
    assert LastIndex(n, IsNameSep) == -1;
  }

  /** Only the last component decides exclusion. */
  lemma ExcludedByLeafOnly(dir: string, n: string)
    requires forall j :: 0 <= j < |n| ==> !IsNameSep(n[j])
    ensures IsExcludedFolder(dir + "\\" + n) == IsExcludedFolder(n)
  {
    FileNameOfChild(dir, n);
  }

  /** A separator-free name is excluded exactly when it is reserved. */
  lemma ExcludedName(n: string)
    requires forall j :: 0 <= j < |n| ==> !IsNameSep(n[j])
    ensures IsExcludedFolder(n) <==> IsReservedName(n)
  {
    FileNameOfChild("", n);
  }

  /** Reserved names in any casing are excluded. */
  lemma ExcludedExamples(n: string)
    requires n == "App_Data" || n == "APP_CODE" || n == "BIN" || n == "bin"
    ensures IsExcludedFolder(n)
  {
    assert IsReservedName(n);
    assert forall j :: 0 <= j < |n| ==> !IsNameSep(n[j]);
    ExcludedName(n);
  }

  /** Names that merely begin like a reserved one are kept. */
  lemma KeptExamples(n: string)
    requires n == "application" || n == "binary" || n == "approved"
    ensures !IsExcludedFolder(n)
  {
    assert !IsReservedName(n) by {
      if n == "binary" {
        assert n[0] == 'b' && |n| == 6;
      } else {
        assert n[3] != '_';
      }
    }
    assert forall j :: 0 <= j < |n| ==> !IsNameSep(n[j]);
    ExcludedName(n);
  }

  /** A reserved ancestor does not exclude its subdirectory. */
  lemma KeptBelowBin(p: string)
    requires p == "C:\\www\\bin\\sub"
    ensures !IsExcludedFolder(p)
  {
    assert p == "C:\\www\\bin" + "\\" + "sub";
    ExcludedByLeafOnly("C:\\www\\bin", "sub");
    ExcludedName("sub");
  }

  /** The descendants of the k-th child lie among the descendants of the
      children from i on, for every i up to k. */
  lemma {:induction false} DescendantsFromIncludes(path: string, d: Dir, i: nat, k: nat, x: string)
    requires i <= k < |d.children|
    requires x in Descendants(Combine(path, d.children[k].name), d.children[k])
    ensures x in DescendantsFrom(path, d, i)
    decreases k - i
  {
    var here := Descendants(Combine(path, d.children[i].name), d.children[i]);
    assert DescendantsFrom(path, d, i) == here + DescendantsFrom(path, d, i + 1);
    if i < k {
      DescendantsFromIncludes(path, d, i + 1, k, x);
    }
  }

  /** Exclusion does not cascade: a grandchild is returned exactly when its
      own path is not excluded, whatever its parent's name. */
  lemma NonCascading(path: string, d: Dir, k: nat, j: nat)
    requires k < |d.children| && j < |d.children[k].children|
    ensures var c := d.children[k];
      var g := Combine(Combine(path, c.name), c.children[j].name);
      g in DirectoriesBelow(path, d) <==> !IsExcludedFolder(g)
  {
    var c := d.children[k];
    var cp := Combine(path, c.name);
    var g := Combine(cp, c.children[j].name);
    assert g == ChildPaths(cp, c.children)[j];
    assert g in Descendants(cp, c);
    DescendantsFromIncludes(path, d, 0, k, g);
    assert g in Descendants(path, d);
    DirectoriesBelowFiltersDescendants(path, d);
  }
}
