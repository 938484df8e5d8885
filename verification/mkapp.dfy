/** The mkapp command: add an application to a site under a given virtual
    path, or under one inferred from the physical path; a physical path
    with a wildcard only lists the directories it expands to. */
module MkApp {
  import opened Outcomes
  import opened Entities
  import opened Paths
  import opened Store

  /** The explicit form, AddApplication(virPath, physPath, siteName): the
      physical path is made absolute and announced; an existing site gets
      the application appended, a missing one gets nothing; commit is
      called either way. */
  function AddExplicit(h: Host, s: Server, virPath: string, physPath: string, siteName: string): (r: Run)
    ensures physPath == "" ==> r == Run(s, [], Some(Argument(IllegalPath)))
    ensures physPath != "" ==>
      var full := FullPath(h.cwd, physPath).value;
      && r.thrown == None
      && r.printed == [Text("Adding app from dir: " + full), Text("With virtual dir: " + virPath)]
      && r.server.pools == s.pools
      && r.server.commits == s.commits + 1
      && ((forall j :: 0 <= j < |s.sites| ==> s.sites[j].name != siteName) ==> r.server.sites == s.sites)
      && (forall i :: 0 <= i < |s.sites| && s.sites[i].name == siteName &&
                      (forall j :: 0 <= j < i ==> s.sites[j].name != siteName) ==>
            r.server.sites == s.sites[i := s.sites[i].(apps := s.sites[i].apps + [App(virPath, full)])])
  {
    match FullPath(h.cwd, physPath)
    case Fail(e) => Run(s, [], Some(e))
    case Ok(full) =>
      var printed := [Text("Adding app from dir: " + full), Text("With virtual dir: " + virPath)];
      match GetSiteByName(s, siteName)
      case Some(i) => Run(Commit(AppendApp(s, i, full, virPath)), printed, None)
      case None => Run(Commit(s), printed, None)
  }

  /** The inferred form, AddApplication(physPath, siteName): a wildcard
      path prints the directories it expands to and adds nothing; any other
      path is added under the virtual path suggested from the site's root,
      or under "" when the site is missing. */
  function AddInferred(h: Host, s: Server, physPath: string, siteName: string): (r: Run)
    ensures '*' in physPath ==>
      match ExpandWildcardDirectories(h, physPath)
      case Fail(e) => r == Run(s, [], Some(e))
      case Ok(paths) =>
        && r.server == s && r.thrown == None
        && |r.printed| == |paths|
        && forall k :: 0 <= k < |paths| ==> r.printed[k] == Text(paths[k])
    ensures '*' !in physPath && (forall j :: 0 <= j < |s.sites| ==> s.sites[j].name != siteName) ==>
      r == AddExplicit(h, s, "", physPath, siteName)
    ensures forall i :: '*' !in physPath && 0 <= i < |s.sites| && s.sites[i].name == siteName &&
                        (forall j :: 0 <= j < i ==> s.sites[j].name != siteName) ==>
      match SuggestVirtualDirectory(h, s.sites[i], physPath)
      case Fail(e) => r == Run(s, [], Some(e))
      case Ok(v) => r == AddExplicit(h, s, v, physPath, siteName)
  {
    if ContainsWildcard(physPath) then
      match ExpandWildcardDirectories(h, physPath)
      case Fail(e) => Run(s, [], Some(e))
      case Ok(paths) => Run(s, seq(|paths|, k requires 0 <= k < |paths| => Text(paths[k])), None)
    else
      match GetSiteByName(s, siteName)
      case None => AddExplicit(h, s, "", physPath, siteName)
      case Some(i) =>
        match SuggestVirtualDirectory(h, s.sites[i], physPath)
        case Fail(e) => Run(s, [], Some(e))
        case Ok(v) => AddExplicit(h, s, v, physPath, siteName)
  }

  /** mkapp's Main: -h prints usage while the options are read and does
      not stop what follows; two positional arguments are an inferred add
      (physical path, site), three an explicit add (virtual path, physical
      path, site), any other count prints usage. Every exception is
      caught. */
  function Main(h: Host, s: Server, help: bool, extra: seq<string>): (r: Run)
    ensures r.thrown == None
    ensures var pre := if help then [Usage] else [];
      && |r.printed| >= |pre| && r.printed[..|pre|] == pre
      && (|extra| == 2 ==>
            var c := Catch(AddInferred(h, s, extra[0], extra[1]));
            r.server == c.server && r.printed == pre + c.printed)
      && (|extra| == 3 ==>
            var c := Catch(AddExplicit(h, s, extra[0], extra[1], extra[2]));
            r.server == c.server && r.printed == pre + c.printed)
      && (|extra| != 2 && |extra| != 3 ==> r == Run(s, pre + [Usage], None))
  {
    var pre := if help then [Usage] else [];
    var c :=
      if |extra| == 2 then Catch(AddInferred(h, s, extra[0], extra[1]))
      else if |extra| == 3 then Catch(AddExplicit(h, s, extra[0], extra[1], extra[2]))
      else Run(s, [Usage], None);
    assert (pre + c.printed)[..|pre|] == pre;
    Run(c.server, pre + c.printed, None)
  }

  /** -h changes what is printed, never what is done. */
  lemma HelpDoesNotStop(h: Host, s: Server, extra: seq<string>)
    ensures Main(h, s, true, extra).server == Main(h, s, false, extra).server
  {
  }

  /** An explicit add of a fresh virtual path on an existing site is undone
      by the handler's RemoveApplication for that path. */
  lemma AddExplicitThenRemove(h: Host, s: Server, i: nat, virPath: string, physPath: string)
    requires i < |s.sites|
    requires forall j :: 0 <= j < i ==> s.sites[j].name != s.sites[i].name
    requires forall k :: 0 <= k < |s.sites[i].apps| ==> s.sites[i].apps[k].vpath != virPath
    requires physPath != ""
    ensures var added := AddExplicit(h, s, virPath, physPath, s.sites[i].name).server;
      var r := RemoveApplicationByName(added, s.sites[i].name, virPath);
      r.thrown == None && r.server == s.(commits := s.commits + 2)
  {
    var full := FullPath(h.cwd, physPath).value;
    assert AddExplicit(h, s, virPath, physPath, s.sites[i].name).server == AddApplication(s, i, full, virPath);
    AddThenRemoveApplication(s, i, full, virPath);
  }

  /** Worked example: on a site rooted at C:\www, the inferred add of
      C:\www\blog appends the application /blog. */
  lemma InferredChildExample(h: Host, s: Server, i: nat)
    requires i < |s.sites|
    requires forall j :: 0 <= j < i ==> s.sites[j].name != s.sites[i].name
    requires |s.sites[i].apps| > 0 && s.sites[i].apps[0].ppath == "C:\\www"
    ensures var r := AddInferred(h, s, "C:\\www\\blog", s.sites[i].name);
      && r.thrown == None
      && r.server.sites[i].apps == s.sites[i].apps + [App("/blog", "C:\\www\\blog")]
  {
    var name := s.sites[i].name;
    var path := "C:\\www\\blog";
    assert FullPath(h.cwd, path) == Ok(path) by {
      assert path[1] == ':';
    }
    assert AddInferred(h, s, path, name) == AddExplicit(h, s, "/blog", path, name) by {
      assert GetSiteByName(s, name) == Some(i);
      SuggestChildExample(h, s.sites[i]);
      assert '*' !in path;
    }
  }
}
