/** IISHandler's operations on the server manager's configuration: lookups
    with first-match semantics, application pools, sites and their run
    state, and applications. Every operation takes the server and returns
    the server it leaves behind; an exception that escapes is a Fail with
    the server unchanged. */
module Store {
  import opened Outcomes
  import opened Seqs
  import opened Strs
  import opened Entities

  /** What a command leaves behind: the server, the lines it printed, and
      the exception that escaped it, if one did. */
  datatype Run = Run(server: Server, printed: seq<Line>, thrown: Option<Error>)

  /** A catch block around a command: an escaped exception is printed and
      goes no further. */
  function Catch(r: Run): (c: Run)
    ensures c.server == r.server && c.thrown == None
    ensures r.thrown.None? ==> c.printed == r.printed
    ensures r.thrown.Some? ==> c.printed == r.printed + [Text(r.thrown.value.Message())]
  {
    match r.thrown
    case None => r
    case Some(e) => Run(r.server, r.printed + [Text(e.Message())], None)
  }

  /** ServerManager.CommitChanges: the configuration is saved as it is. */
  function Commit(s: Server): (r: Server)
    ensures r.pools == s.pools && r.sites == s.sites && r.commits == s.commits + 1
  {
    s.(commits := s.commits + 1)
  }

  // ---- Lookups ----

  /** GetSiteByName (the site collection's indexer): the position of the
      first site with that name, or None (null). */
  function GetSiteByName(s: Server, name: string): (r: Option<nat>)
    ensures r.Some? ==> r.value < |s.sites| && s.sites[r.value].name == name
    ensures r.Some? ==> forall j :: 0 <= j < r.value ==> s.sites[j].name != name
    ensures r.None? <==> forall j :: 0 <= j < |s.sites| ==> s.sites[j].name != name
  {
    FirstIndex(s.sites, (x: Site) => x.name == name)
  }

  /** GetApplicationByName (the application collection's indexer): the
      position of the first application with that virtual path, or None. */
  function GetApplicationByName(site: Site, name: string): (r: Option<nat>)
    ensures r.Some? ==> r.value < |site.apps| && site.apps[r.value].vpath == name
    ensures r.Some? ==> forall j :: 0 <= j < r.value ==> site.apps[j].vpath != name
    ensures r.None? <==> forall j :: 0 <= j < |site.apps| ==> site.apps[j].vpath != name
  {
    FirstIndex(site.apps, (a: App) => a.vpath == name)
  }

  // ---- Application pools ----

  /** AddApplicationPool: an existing pool of that name is reused with no
      change and no commit; otherwise one pool is appended and committed. */
  function AddApplicationPool(s: Server, name: string): (r: Server)
    ensures name in r.pools
    ensures name in s.pools ==> r == s
    ensures name !in s.pools ==>
      r.pools == s.pools + [name] && r.sites == s.sites && r.commits == s.commits + 1
  {
    if |s.pools| > 0 then
      match FirstIndex(s.pools, (p: string) => p == name)
      case Some(_) => s
      case None => Commit(s.(pools := s.pools + [name]))
    else Commit(s.(pools := s.pools + [name]))
  }

  /** RemoveApplicationPool: with no pools at all, nothing happens; the
      first pool of that name is removed and the change committed; a name
      that is not there is an ArgumentException. */
  function RemoveApplicationPool(s: Server, name: string): (r: Result<Server>)
    ensures |s.pools| == 0 ==> r == Ok(s)
    ensures |s.pools| > 0 && name !in s.pools ==>
      r == Fail(Argument("App pool " + name + " does not exist."))
    ensures name in s.pools ==>
      && r.Ok?
      && DropsFirst(s.pools, (p: string) => p == name, r.value.pools)
      && r.value.sites == s.sites
      && r.value.commits == s.commits + 1
  {
    if |s.pools| > 0 then
      match FirstIndex(s.pools, (p: string) => p == name)
      case Some(i) =>
        RemoveFirstMatch(s.pools, (p: string) => p == name, i);
        Ok(Commit(s.(pools := RemoveFirst(s.pools, s.pools[i]))))
      case None => Fail(Argument("App pool " + name + " does not exist."))
    else Ok(s)
  }

  /** Adding a pool that is already there changes nothing. */
  lemma AddApplicationPoolIdempotent(s: Server, name: string)
    ensures AddApplicationPool(AddApplicationPool(s, name), name) == AddApplicationPool(s, name)
  {
  }

  /** Removing a pool just added restores the pool list, after two commits. */
  lemma AddThenRemovePool(s: Server, name: string)
    requires name !in s.pools
    ensures RemoveApplicationPool(AddApplicationPool(s, name), name)
      == Ok(s.(commits := s.commits + 2))
  {
    var a := AddApplicationPool(s, name);
    var i := |s.pools|;
    assert a.pools[i] == name;
    assert forall j :: 0 <= j < i ==> a.pools[j] != name;
    RemoveFirstMatch(a.pools, (p: string) => p == name, i);
    assert FirstIndex(a.pools, (p: string) => p == name) == Some(i);
    assert a.pools[..i] + a.pools[i + 1..] == s.pools;
  }

  // ---- Sites ----

  /** The binding information string.Format("{0}:{1}:{2}") builds. */
  function Binding(ip: string, port: int, host: string): (b: string)
    ensures StartsWith(b, ip)
  {
    ip + ":" + FormatInt(port) + ":" + host
  }

  /** A binding built from colon-free parts splits back into them, and its
      port field reads back as the port. */
  lemma BindingFields(ip: string, port: int, host: string)
    requires ':' !in ip && ':' !in host
    requires Int32Min <= port <= Int32Max
    ensures Split(Binding(ip, port, host), ':') == [ip, FormatInt(port), host]
    ensures ParseInt32(Split(Binding(ip, port, host), ':')[1]) == Some(port)
  {
    BindingSplit(ip, FormatInt(port), host);
    FormatParseRoundTrip(port);
  }

  /** Three colon-free fields joined by colons split back into them. */
  lemma BindingSplit(ip: string, f: string, host: string)
    requires ':' !in ip && ':' !in f && ':' !in host
    ensures Split(ip + ":" + f + ":" + host, ':') == [ip, f, host]
  {
    var rest := f + [':'] + host;
    assert ip + ":" + f + ":" + host == ip + [':'] + rest;
    assert Split(rest, ':') == [f, host] by {
      SplitField(f, ':', host);
      SplitWhole(host, ':');
    }
    SplitField(ip, ':', rest);
  }

  /** The site Sites.Add creates: the binding, the physical path as the
      root application "/", and the pool as the application default. */
  function NewSite(pool: string, name: string, path: string, port: int, kind: string, ip: string, host: string): (site: Site)
    ensures site.name == name && site.pool == pool && site.protocol == kind
    ensures site.apps == [App("/", path)]
  {
    Site(name, kind, Binding(ip, port, host), pool, Unknown, [App("/", path)])
  }

  /** AddSite: a site is created only when the site list is non-empty and
      no site has that name; then the result is its position. Otherwise
      nothing changes and the result is None (null). */
  function AddSite(s: Server, pool: string, name: string, path: string, port: int,
                   kind: string, ip: string, host: string): (r: (Server, Option<nat>))
    ensures (|s.sites| == 0 || exists j :: 0 <= j < |s.sites| && s.sites[j].name == name) ==>
      r == (s, None)
    ensures |s.sites| > 0 && (forall j :: 0 <= j < |s.sites| ==> s.sites[j].name != name) ==>
      && r.1 == Some(|s.sites|)
      && r.0.sites == s.sites + [Site(name, kind, Binding(ip, port, host), pool, Unknown, [App("/", path)])]
      && r.0.pools == s.pools
      && r.0.commits == s.commits + 1
  {
    if |s.sites| > 0 then
      match GetSiteByName(s, name)
      case None =>
        (Commit(s.(sites := s.sites + [NewSite(pool, name, path, port, kind, ip, host)])), Some(|s.sites|))
      case Some(_) => (s, None)
    else (s, None)
  }

  /** RemoveSite: the first site of that name is removed and the change
      committed; a missing name changes nothing and throws nothing. */
  function RemoveSite(s: Server, name: string): (r: Server)
    ensures (forall j :: 0 <= j < |s.sites| ==> s.sites[j].name != name) ==> r == s
    ensures (exists j :: 0 <= j < |s.sites| && s.sites[j].name == name) ==>
      && DropsFirst(s.sites, (x: Site) => x.name == name, r.sites)
      && r.pools == s.pools
      && r.commits == s.commits + 1
  {
    if |s.sites| > 0 then
      match GetSiteByName(s, name)
      case Some(i) =>
        RemoveFirstMatch(s.sites, (x: Site) => x.name == name, i);
        Commit(s.(sites := RemoveFirst(s.sites, s.sites[i])))
      case None => s
    else s
  }

  /** A second AddSite with the same name is refused. */
  lemma AddSiteTwice(s: Server, pool: string, name: string, path: string, port: int,
                     kind: string, ip: string, host: string)
    ensures var once := AddSite(s, pool, name, path, port, kind, ip, host).0;
      AddSite(once, pool, name, path, port, kind, ip, host) == (once, None)
  {
    var once := AddSite(s, pool, name, path, port, kind, ip, host).0;
    if |s.sites| > 0 && (forall j :: 0 <= j < |s.sites| ==> s.sites[j].name != name) {
      assert once.sites[|s.sites|].name == name;
    }
  }

  /** Removing a site just added restores the site list. */
  lemma AddThenRemoveSite(s: Server, pool: string, name: string, path: string, port: int,
                          kind: string, ip: string, host: string)
    requires |s.sites| > 0
    requires forall j :: 0 <= j < |s.sites| ==> s.sites[j].name != name
    ensures RemoveSite(AddSite(s, pool, name, path, port, kind, ip, host).0, name)
      == s.(commits := s.commits + 2)
  {
    var a := AddSite(s, pool, name, path, port, kind, ip, host).0;
    var i := |s.sites|;
    assert a.sites[i].name == name;
    assert forall j :: 0 <= j < i ==> a.sites[j].name != name;
    assert GetSiteByName(a, name) == Some(i);
    RemoveFirstMatch(a.sites, (x: Site) => x.name == name, i);
    assert a.sites[..i] + a.sites[i + 1..] == s.sites;
  }

  /** Site.Start as the handler uses it: only a stopped site moves. */
  function AfterStart(st: ObjectState): (r: ObjectState)
    ensures r == Started <==> st == Stopped || st == Started
    ensures st != Stopped ==> r == st
  {
    if st == Stopped then Started else st
  }

  /** Site.Stop as the handler uses it: only a started site moves. */
  function AfterStop(st: ObjectState): (r: ObjectState)
    ensures r == Stopped <==> st == Started || st == Stopped
    ensures st != Started ==> r == st
  {
    if st == Started then Stopped else st
  }

  /** StartSite(site): a stopped site is started; commit is always called. */
  function StartSite(s: Server, i: nat): (r: Server)
    requires i < |s.sites|
    ensures |r.sites| == |s.sites| && r.pools == s.pools && r.commits == s.commits + 1
    ensures r.sites[i] == s.sites[i].(state := AfterStart(s.sites[i].state))
    ensures forall j :: 0 <= j < |s.sites| && j != i ==> r.sites[j] == s.sites[j]
  {
    Commit(s.(sites := s.sites[i := s.sites[i].(state := AfterStart(s.sites[i].state))]))
  }

  /** StopSite(site): a started site is stopped; commit is always called. */
  function StopSite(s: Server, i: nat): (r: Server)
    requires i < |s.sites|
    ensures |r.sites| == |s.sites| && r.pools == s.pools && r.commits == s.commits + 1
    ensures r.sites[i] == s.sites[i].(state := AfterStop(s.sites[i].state))
    ensures forall j :: 0 <= j < |s.sites| && j != i ==> r.sites[j] == s.sites[j]
  {
    Commit(s.(sites := s.sites[i := s.sites[i].(state := AfterStop(s.sites[i].state))]))
  }

  /** StartSite(name): with sites present, the first site of that name is
      started (one commit) and commit is called once more; a missing name
      changes no state. With no sites at all nothing happens. */
  function StartSiteByName(s: Server, name: string): (r: Server)
    ensures |s.sites| == 0 ==> r == s
    ensures |s.sites| > 0 && (forall j :: 0 <= j < |s.sites| ==> s.sites[j].name != name) ==>
      r == s.(commits := s.commits + 1)
    ensures forall i :: 0 <= i < |s.sites| && s.sites[i].name == name &&
                        (forall j :: 0 <= j < i ==> s.sites[j].name != name) ==>
      r == s.(sites := s.sites[i := s.sites[i].(state := AfterStart(s.sites[i].state))],
              commits := s.commits + 2)
  {
    if |s.sites| > 0 then
      match GetSiteByName(s, name)
      case Some(i) => Commit(StartSite(s, i))
      case None => Commit(s)
    else s
  }

  /** StopSite(name), the mirror image of StartSiteByName. */
  function StopSiteByName(s: Server, name: string): (r: Server)
    ensures |s.sites| == 0 ==> r == s
    ensures |s.sites| > 0 && (forall j :: 0 <= j < |s.sites| ==> s.sites[j].name != name) ==>
      r == s.(commits := s.commits + 1)
    ensures forall i :: 0 <= i < |s.sites| && s.sites[i].name == name &&
                        (forall j :: 0 <= j < i ==> s.sites[j].name != name) ==>
      r == s.(sites := s.sites[i := s.sites[i].(state := AfterStop(s.sites[i].state))],
              commits := s.commits + 2)
  {
    if |s.sites| > 0 then
      match GetSiteByName(s, name)
      case Some(i) => Commit(StopSite(s, i))
      case None => Commit(s)
    else s
  }

  /** Stopping a started site and starting it again gives back the same
      sites; starting twice is starting once. */
  lemma StopThenStart(s: Server, i: nat)
    requires i < |s.sites| && s.sites[i].state == Started
    ensures StartSite(StopSite(s, i), i).sites == s.sites
    ensures StartSite(StartSite(s, i), i).sites == StartSite(s, i).sites
  {
  }

  // ---- Applications ----

  /** Site.Applications.Add(virpath, physpath) on the i-th site: appended at
      the end, without any check. */
  function AppendApp(s: Server, i: nat, physpath: string, virpath: string): (r: Server)
    requires i < |s.sites|
    ensures |r.sites| == |s.sites| && r.pools == s.pools && r.commits == s.commits
    ensures r.sites[i].apps == s.sites[i].apps + [App(virpath, physpath)]
    ensures r.sites[i] == s.sites[i].(apps := r.sites[i].apps)
    ensures forall j :: 0 <= j < |s.sites| && j != i ==> r.sites[j] == s.sites[j]
  {
    s.(sites := s.sites[i := s.sites[i].(apps := s.sites[i].apps + [App(virpath, physpath)])])
  }

  /** AddApplication(physpath, virpath, site): append, then commit. */
  function AddApplication(s: Server, i: nat, physpath: string, virpath: string): (r: Server)
    requires i < |s.sites|
    ensures |r.sites| == |s.sites| && r.pools == s.pools && r.commits == s.commits + 1
    ensures r.sites[i].apps == s.sites[i].apps + [App(virpath, physpath)]
    ensures r.sites[i] == s.sites[i].(apps := r.sites[i].apps)
    ensures forall j :: 0 <= j < |s.sites| && j != i ==> r.sites[j] == s.sites[j]
  {
    Commit(AppendApp(s, i, physpath, virpath))
  }

  /** RemoveApplicationNonCommit(site, app): the first application equal to
      app leaves the i-th site; nothing is committed. */
  function RemoveApplicationNonCommit(s: Server, i: nat, app: App): (r: Server)
    requires i < |s.sites|
    ensures |r.sites| == |s.sites| && r.pools == s.pools && r.commits == s.commits
    ensures app !in s.sites[i].apps ==> r == s
    ensures app in s.sites[i].apps ==> DropsFirst(s.sites[i].apps, (a: App) => a == app, r.sites[i].apps)
    ensures r.sites[i].apps == RemoveFirst(s.sites[i].apps, app)
    ensures r.sites[i] == s.sites[i].(apps := r.sites[i].apps)
    ensures forall j :: 0 <= j < |s.sites| && j != i ==> r.sites[j] == s.sites[j]
  {
    var apps := s.sites[i].apps;
    match FirstIndex(apps, (a: App) => a == app)
    case None => s
    case Some(k) =>
      RemoveFirstMatch(apps, (a: App) => a == app, k);
      s.(sites := s.sites[i := s.sites[i].(apps := RemoveFirst(apps, app))])
  }

  /** RemoveApplication(site, app): the same removal, then commit. */
  function RemoveApplication(s: Server, i: nat, app: App): (r: Server)
    requires i < |s.sites|
    ensures |r.sites| == |s.sites| && r.pools == s.pools && r.commits == s.commits + 1
    ensures app !in s.sites[i].apps ==> r.sites == s.sites
    ensures app in s.sites[i].apps ==> DropsFirst(s.sites[i].apps, (a: App) => a == app, r.sites[i].apps)
    ensures r.sites[i] == s.sites[i].(apps := r.sites[i].apps)
    ensures forall j :: 0 <= j < |s.sites| && j != i ==> r.sites[j] == s.sites[j]
  {
    Commit(RemoveApplicationNonCommit(s, i, app))
  }

  /** The part of RemoveApplication(siteName, appName) after the site is
      found at i: the application name is printed, a missing application
      is an ArgumentException, and the first application with that virtual
      path is removed and committed. */
  function RemoveNamedApp(s: Server, i: nat, siteName: string, appName: string): (r: Run)
    requires i < |s.sites|
    ensures r.printed == [Text(appName)]
    ensures (forall k :: 0 <= k < |s.sites[i].apps| ==> s.sites[i].apps[k].vpath != appName) ==>
      r.server == s &&
      r.thrown == Some(Argument("Application " + appName + " does not exist inside " + siteName))
    ensures (exists k :: 0 <= k < |s.sites[i].apps| && s.sites[i].apps[k].vpath == appName) ==>
      && r.thrown == None
      && |r.server.sites| == |s.sites|
      && DropsFirst(s.sites[i].apps, (a: App) => a.vpath == appName, r.server.sites[i].apps)
      && r.server.sites[i] == s.sites[i].(apps := r.server.sites[i].apps)
      && (forall j :: 0 <= j < |s.sites| && j != i ==> r.server.sites[j] == s.sites[j])
      && r.server.pools == s.pools
      && r.server.commits == s.commits + 1
  {
    var apps := s.sites[i].apps;
    match GetApplicationByName(s.sites[i], appName)
    case None =>
      Run(s, [Text(appName)], Some(Argument("Application " + appName + " does not exist inside " + siteName)))
    case Some(k) =>
      RemoveFirstMatch(apps, (a: App) => a.vpath == appName, k);
      RemoveFirstMatch(apps, (a: App) => a == apps[k], k);
      Run(RemoveApplication(s, i, apps[k]), [Text(appName)], None)
  }

  /** RemoveApplication(siteName, appName): a missing site is an
      ArgumentException before anything is printed; otherwise the first
      site of that name has the named application removed. */
  function RemoveApplicationByName(s: Server, siteName: string, appName: string): (r: Run)
    ensures (forall j :: 0 <= j < |s.sites| ==> s.sites[j].name != siteName) ==>
      r == Run(s, [], Some(Argument("Site " + siteName + " does not exist.")))
    ensures forall i :: 0 <= i < |s.sites| && s.sites[i].name == siteName &&
                        (forall j :: 0 <= j < i ==> s.sites[j].name != siteName) ==>
      r == RemoveNamedApp(s, i, siteName, appName)
  {
    match GetSiteByName(s, siteName)
    case None => Run(s, [], Some(Argument("Site " + siteName + " does not exist.")))
    case Some(i) => RemoveNamedApp(s, i, siteName, appName)
  }

  /** Removing by name an application just added under a fresh virtual
      path gives back the site's applications, after two commits. */
  lemma AddThenRemoveApplication(s: Server, i: nat, physpath: string, virpath: string)
    requires i < |s.sites|
    requires forall j :: 0 <= j < i ==> s.sites[j].name != s.sites[i].name
    requires forall k :: 0 <= k < |s.sites[i].apps| ==> s.sites[i].apps[k].vpath != virpath
    ensures var r := RemoveApplicationByName(AddApplication(s, i, physpath, virpath), s.sites[i].name, virpath);
      r.thrown == None && r.server == s.(commits := s.commits + 2)
  {
    AddedIsRemovedByName(s, i, physpath, virpath);
    AddedIsRemoved(s, i, physpath, virpath);
  }

  /** After the add, the removal by name is the removal of the appended
      application. */
  lemma AddedIsRemovedByName(s: Server, i: nat, physpath: string, virpath: string)
    requires i < |s.sites|
    requires forall j :: 0 <= j < i ==> s.sites[j].name != s.sites[i].name
    requires forall k :: 0 <= k < |s.sites[i].apps| ==> s.sites[i].apps[k].vpath != virpath
    ensures var a := AddApplication(s, i, physpath, virpath);
      RemoveApplicationByName(a, s.sites[i].name, virpath)
        == Run(RemoveApplication(a, i, a.sites[i].apps[|s.sites[i].apps|]), [Text(virpath)], None)
  {
    var a := AddApplication(s, i, physpath, virpath);
    SiteFoundAfterAppend(s, i, physpath, virpath);
    assert a.sites[i] == s.sites[i].(apps := s.sites[i].apps + [App(virpath, physpath)]);
    AppendedIsFound(s.sites[i], App(virpath, physpath));
    RemoveByNameFound(a, i, |s.sites[i].apps|, s.sites[i].name, virpath);
  }

  /** Removing the appended application undoes the add, up to the two
      commits. */
  lemma AddedIsRemoved(s: Server, i: nat, physpath: string, virpath: string)
    requires i < |s.sites|
    requires forall k :: 0 <= k < |s.sites[i].apps| ==> s.sites[i].apps[k].vpath != virpath
    ensures var a := AddApplication(s, i, physpath, virpath);
      RemoveApplication(a, i, a.sites[i].apps[|s.sites[i].apps|]) == s.(commits := s.commits + 2)
  {
    var a := AddApplication(s, i, physpath, virpath);
    var k := |s.sites[i].apps|;
    assert a.sites[i].apps[..k] == s.sites[i].apps;
    RemoveAppended(a, i, s.sites[i].apps);
    assert a.sites[i := a.sites[i].(apps := s.sites[i].apps)] == s.sites;
  }

  /** Appending an application keeps the site where the lookup by name
      finds it. */
  lemma SiteFoundAfterAppend(s: Server, i: nat, physpath: string, virpath: string)
    requires i < |s.sites|
    requires forall j :: 0 <= j < i ==> s.sites[j].name != s.sites[i].name
    ensures GetSiteByName(AddApplication(s, i, physpath, virpath), s.sites[i].name) == Some(i)
  {
    var a := AddApplication(s, i, physpath, virpath);
    assert a.sites[i].name == s.sites[i].name;
    assert forall j :: 0 <= j < i ==> a.sites[j] == s.sites[j];
  }

  /** When the site and the application are both found, the removal by
      name is the removal of that application. */
  lemma RemoveByNameFound(s: Server, i: nat, k: nat, siteName: string, appName: string)
    requires GetSiteByName(s, siteName) == Some(i)
    requires GetApplicationByName(s.sites[i], appName) == Some(k)
    ensures RemoveApplicationByName(s, siteName, appName)
      == Run(RemoveApplication(s, i, s.sites[i].apps[k]), [Text(appName)], None)
  {
  }

  /** An application appended under a fresh virtual path is the first one
      found by that path. */
  lemma AppendedIsFound(site: Site, app: App)
    requires forall k :: 0 <= k < |site.apps| ==> site.apps[k].vpath != app.vpath
    ensures GetApplicationByName(site.(apps := site.apps + [app]), app.vpath) == Some(|site.apps|)
  {
    var apps := site.apps + [app];
    assert apps[|site.apps|] == app;
    assert forall j :: 0 <= j < |site.apps| ==> apps[j] == site.apps[j];
  }

  /** Removing the last application of a site whose earlier applications
      differ from it leaves the earlier ones. */
  lemma RemoveAppended(s: Server, i: nat, before: seq<App>)
    requires i < |s.sites| && |s.sites[i].apps| == |before| + 1
    requires s.sites[i].apps[..|before|] == before
    requires forall j :: 0 <= j < |before| ==> before[j].vpath != s.sites[i].apps[|before|].vpath
    ensures RemoveApplication(s, i, s.sites[i].apps[|before|]).sites == s.sites[i := s.sites[i].(apps := before)]
  {
    var apps := s.sites[i].apps;
    var k := |before|;
    assert forall j :: 0 <= j < k ==> apps[j] != apps[k] by {
      forall j | 0 <= j < k ensures apps[j] != apps[k] {
        assert apps[j] == before[j];
      }
    }
    RemoveFirstMatch(apps, (x: App) => x == apps[k], k);
    assert FirstIndex(apps, (x: App) => x == apps[k]) == Some(k);
    assert apps[..k] + apps[k + 1..] == before;
  }
}
