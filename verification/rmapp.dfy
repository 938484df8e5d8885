/** The rmapp command: remove one application by virtual path, every
    application whose physical path matches a wildcard, or every
    application whose display string starts with a prefix. Removals are
    staged and committed once. */
module RmApp {
  import opened Outcomes
  import opened Seqs
  import opened Strs
  import opened Entities
  import opened Paths
  import opened Store

  /** The message refusing to remove a site's root application. */
  function Refusal(appName: string): string {
    appName + " cannot be removed safely. It is the site default. Removing would corrupt website."
  }

  /** The line printed for a site that is not there. */
  function NoSuchSite(siteName: string): string {
    "Site " + siteName + " does not exist."
  }

  /** One console line per staged application, in order. */
  function Announce(heading: string, site: Site, staged: seq<App>): (lines: seq<Line>)
    ensures |lines| == |staged|
  {
    seq(|staged|, k requires 0 <= k < |staged| => Text(heading + Display(site, staged[k])))
  }

  /** The removal loop: RemoveApplicationNonCommit for each staged
      application in turn, on the i-th site. */
  function RemoveEachNonCommit(s: Server, i: nat, staged: seq<App>): (r: Server)
    requires i < |s.sites|
    ensures |r.sites| == |s.sites| && r.pools == s.pools && r.commits == s.commits
    ensures r.sites[i].apps == RemoveEach(s.sites[i].apps, staged)
    ensures r.sites[i] == s.sites[i].(apps := r.sites[i].apps)
    ensures forall j :: 0 <= j < |s.sites| && j != i ==> r.sites[j] == s.sites[j]
    decreases |staged|
  {
    if |staged| == 0 then s
    else RemoveEachNonCommit(RemoveApplicationNonCommit(s, i, staged[0]), i, staged[1..])
  }

  /** Stage, announce, remove without committing, then commit once: the
      i-th site keeps exactly its applications that fail p, in order, and
      nothing else changes. */
  function RemoveStaged(s: Server, i: nat, p: App -> bool, heading: string): (r: Run)
    requires i < |s.sites|
    ensures r.thrown == None
    ensures r.printed == Announce(heading, s.sites[i], Keep(s.sites[i].apps, p))
    ensures |r.server.sites| == |s.sites|
    ensures r.server.sites[i].apps == Reject(s.sites[i].apps, p)
    ensures forall a :: a in r.server.sites[i].apps <==> a in s.sites[i].apps && !p(a)
    ensures r.server.sites[i] == s.sites[i].(apps := r.server.sites[i].apps)
    ensures forall j :: 0 <= j < |s.sites| && j != i ==> r.server.sites[j] == s.sites[j]
    ensures r.server.pools == s.pools && r.server.commits == s.commits + 1
  {
    var staged := Keep(s.sites[i].apps, p);
    RemoveEachKept(s.sites[i].apps, p);
    Run(Commit(RemoveEachNonCommit(s, i, staged)), Announce(heading, s.sites[i], staged), None)
  }

  /** The wildcard test: the root virtual directory's physical path is
      one of the expanded directories. */
  function PhysicalIn(paths: seq<string>): App -> bool {
    (a: App) => a.ppath in paths
  }

  /** The wildcard branch of RemoveApplication: a missing site is
      reported; a pattern whose directory is missing throws; otherwise
      every application of the site whose physical path matches is
      removed, root included, with one commit. */
  function RemoveMatching(h: Host, s: Server, pattern: string, siteName: string): (r: Run)
    ensures (forall j :: 0 <= j < |s.sites| ==> s.sites[j].name != siteName) ==>
      r == Run(s, [Text(NoSuchSite(siteName))], None)
    ensures forall i :: 0 <= i < |s.sites| && s.sites[i].name == siteName &&
                        (forall j :: 0 <= j < i ==> s.sites[j].name != siteName) ==>
      match ExpandWildcardDirectories(h, pattern)
      case Fail(e) => r == Run(s, [], Some(e))
      case Ok(paths) =>
        && r.thrown == None
        && |r.server.sites| == |s.sites|
        && r.server.sites[i].apps == Reject(s.sites[i].apps, PhysicalIn(paths))
        && (forall a :: a in r.server.sites[i].apps <==> a in s.sites[i].apps && a.ppath !in paths)
        && (forall j :: 0 <= j < |s.sites| && j != i ==> r.server.sites[j] == s.sites[j])
        && r.server.pools == s.pools
        && r.server.commits == s.commits + 1
  {
    match GetSiteByName(s, siteName)
    case None => Run(s, [Text(NoSuchSite(siteName))], None)
    case Some(i) =>
      match ExpandWildcardDirectories(h, pattern)
      case Fail(e) => Run(s, [], Some(e))
      case Ok(paths) => RemoveStaged(s, i, PhysicalIn(paths), "Removing app ")
  }

  /** rmapp's RemoveApplication: "/" is refused; a name with a wildcard
      takes the wildcard branch; any other name goes to the handler, whose
      exception is caught and printed. */
  function RemoveApplication(h: Host, s: Server, appName: string, siteName: string): (r: Run)
    ensures appName == "/" ==> r == Run(s, [Text(Refusal(appName))], None)
    ensures appName != "/" && '*' in appName ==> r == RemoveMatching(h, s, appName, siteName)
    ensures appName != "/" && '*' !in appName ==>
      r == Catch(RemoveApplicationByName(s, siteName, appName))
  {
    if appName == "/" then Run(s, [Text(Refusal(appName))], None)
    else if ContainsWildcard(appName) then RemoveMatching(h, s, appName, siteName)
    else Catch(RemoveApplicationByName(s, siteName, appName))
  }

  /** The prefix the recursive form matches: the site name is put in front
      unless the prefix already starts with it. */
  function QualifiedPrefix(siteName: string, prefix: string): (r: string)
    ensures StartsWith(r, siteName)
    ensures StartsWith(prefix, siteName) ==> r == prefix
    ensures !StartsWith(prefix, siteName) ==> r == siteName + prefix
  {
    if StartsWith(prefix, siteName) then prefix else siteName + prefix
  }

  /** Qualifying a prefix twice is qualifying it once. */
  lemma QualifiedPrefixIdempotent(siteName: string, prefix: string)
    ensures QualifiedPrefix(siteName, QualifiedPrefix(siteName, prefix)) == QualifiedPrefix(siteName, prefix)
  {
  }

  /** The recursive form's test: the display string starts with the prefix. */
  function DisplayStarts(site: Site, prefix: string): App -> bool {
    (a: App) => StartsWith(Display(site, a), prefix)
  }

  /** RemoveApplicationRecursively: "/" is refused and a missing site is
      reported; otherwise every application of the site whose display
      string starts with the qualified prefix is removed, with one commit. */
  function RemoveApplicationRecursively(s: Server, prefix: string, siteName: string): (r: Run)
    ensures r.thrown == None
    ensures prefix == "/" ==> r == Run(s, [Text(Refusal(prefix))], None)
    ensures prefix != "/" && (forall j :: 0 <= j < |s.sites| ==> s.sites[j].name != siteName) ==>
      r == Run(s, [Text(NoSuchSite(siteName))], None)
    ensures forall i :: prefix != "/" && 0 <= i < |s.sites| && s.sites[i].name == siteName &&
                        (forall j :: 0 <= j < i ==> s.sites[j].name != siteName) ==>
      var site := s.sites[i];
      var full := QualifiedPrefix(site.name, prefix);
      && |r.server.sites| == |s.sites|
      && r.server.sites[i].apps == Reject(site.apps, DisplayStarts(site, full))
      && (forall a :: a in r.server.sites[i].apps <==> a in site.apps && !StartsWith(Display(site, a), full))
      && (forall j :: 0 <= j < |s.sites| && j != i ==> r.server.sites[j] == s.sites[j])
      && r.server.pools == s.pools
      && r.server.commits == s.commits + 1
  {
    if prefix == "/" then Run(s, [Text(Refusal(prefix))], None)
    else
      match GetSiteByName(s, siteName)
      case None => Run(s, [Text(NoSuchSite(siteName))], None)
      case Some(i) =>
        var site := s.sites[i];
        RemoveStaged(s, i, DisplayStarts(site, QualifiedPrefix(site.name, prefix)), "Removing app: ")
  }

  /** The options rmapp understands. */
  datatype Flags = Flags(help: bool, recursive: bool)

  /** rmapp's Main, given its options and positional arguments: help
      prints usage and nothing else; exactly two positional arguments
      (application, site) are acted on, recursively with -r; anything else
      is reported as invalid usage. Every exception is caught. */
  function Main(h: Host, s: Server, flags: Flags, extra: seq<string>): (r: Run)
    ensures r.thrown == None
    ensures flags.help ==> r == Run(s, [Usage], None)
    ensures !flags.help && |extra| != 2 ==> r == Run(s, [Text("Invalid usage. Use --help.")], None)
    ensures !flags.help && |extra| == 2 && flags.recursive ==>
      r == RemoveApplicationRecursively(s, extra[0], extra[1])
    ensures !flags.help && |extra| == 2 && !flags.recursive ==>
      r == Catch(RemoveApplication(h, s, extra[0], extra[1]))
  {
    if flags.help then Run(s, [Usage], None)
    else if |extra| == 2 then
      if flags.recursive then Catch(RemoveApplicationRecursively(s, extra[0], extra[1]))
      else Catch(RemoveApplication(h, s, extra[0], extra[1]))
    else Run(s, [Text("Invalid usage. Use --help.")], None)
  }

  /** The only guard for the root is the literal argument "/": whatever
      the form, that argument changes nothing. */
  lemma RootArgumentChangesNothing(h: Host, s: Server, flags: Flags, siteName: string)
    ensures Main(h, s, flags, ["/", siteName]).server == s
  {
  }

  /** The wildcard filter does not spare the root application: when the
      root's physical path is among the expanded directories, it goes. */
  lemma WildcardRemovesRoot(s: Server, i: nat, paths: seq<string>)
    requires i < |s.sites|
    requires |s.sites[i].apps| > 0 && s.sites[i].apps[0].ppath in paths
    ensures s.sites[i].apps[0] !in RemoveStaged(s, i, PhysicalIn(paths), "Removing app ").server.sites[i].apps
  {
  }

  /** An empty prefix in the recursive form becomes the site name, which
      every display string starts with: every application goes, the root
      included. */
  lemma EmptyPrefixRemovesAll(s: Server, i: nat, siteName: string)
    requires 0 <= i < |s.sites| && s.sites[i].name == siteName
    requires forall j :: 0 <= j < i ==> s.sites[j].name != siteName
    ensures RemoveApplicationRecursively(s, "", siteName).server.sites[i].apps == []
  {
    var site := s.sites[i];
    var full := QualifiedPrefix(site.name, "");
    assert full == site.name;
    forall k | 0 <= k < |site.apps|
      ensures DisplayStarts(site, full)(site.apps[k])
    {
      assert Display(site, site.apps[k])[..|full|] == full;
    }
    FilterNone(site.apps, DisplayStarts(site, full), false);
  }
}
