/** The mksite command: add, remove, start or stop a site. A new site runs
    on the pool named by --pool, or on a pool named after the site. */
module MkSite {
  import opened Outcomes
  import opened Strs
  import opened Entities
  import opened Paths
  import opened Store

  /** The options mksite understands: -h, --pool (empty when absent) and
      --port (its text, when given). */
  datatype Flags = Flags(help: bool, pool: string, port: Option<string>)

  /** The port: 80 without --port; otherwise what Int32.TryParse reads
      from its text, which is 0 when the text is not a 32-bit number. */
  function Port(port: Option<string>): (p: int)
    ensures Int32Min <= p <= Int32Max
    ensures port.None? ==> p == 80
    ensures port.Some? && ParseInt32(port.value).None? ==> p == 0
  {
    match port
    case None => 80
    case Some(text) =>
      match ParseInt32(text)
      case None => 0
      case Some(n) => n
  }

  /** Any 32-bit port written out in decimal is read back as itself. */
  lemma PortRoundTrip(n: int)
    requires Int32Min <= n <= Int32Max
    ensures Port(Some(FormatInt(n))) == n
  {
    FormatParseRoundTrip(n);
  }

  /** AddSite(handler, appPool, siteName, filePath, port): the file path
      is made absolute, then the handler adds an http site bound to all
      addresses and host names. */
  function AddSiteOnPool(h: Host, s: Server, pool: string, siteName: string, filePath: string, port: int): (r: Run)
    ensures filePath == "" ==> r == Run(s, [], Some(Argument(IllegalPath)))
    ensures filePath != "" ==>
      r == Run(AddSite(s, pool, siteName, FullPath(h.cwd, filePath).value, port, "http", "*", "*").0, [], None)
    ensures IsRooted(filePath) ==> r.thrown == None && r.server == AddSite(s, pool, siteName, filePath, port, "http", "*", "*").0
  {
    match FullPath(h.cwd, filePath)
    case Fail(e) => Run(s, [], Some(e))
    case Ok(full) => Run(AddSite(s, pool, siteName, full, port, "http", "*", "*").0, [], None)
  }

  /** AddSite(handler, siteName, filePath, port): a pool named after the
      site is created or reused first, and stays even if the path is
      rejected; the site is then added on it. */
  function AddSiteOwnPool(h: Host, s: Server, siteName: string, filePath: string, port: int): (r: Run)
    ensures siteName in r.server.pools
    ensures filePath == "" ==>
      r.server == AddApplicationPool(s, siteName) && r.thrown == Some(Argument(IllegalPath))
  {
    AddSiteOnPool(h, AddApplicationPool(s, siteName), siteName, siteName, filePath, port)
  }

  /** The message for a subcommand mksite does not know. */
  function NotValid(kind: string): string {
    "Second argument " + kind + " not valid."
  }

  /** The message for a wrong number of positional arguments. */
  const BadArity: string := "Invalid number of arguments."

  /** mksite's Main: -h prints usage and does nothing else; the first
      positional argument picks the subcommand ("" when there is none);
      add needs three positional arguments, remove, start and stop two;
      an unknown subcommand is an error naming it. Every exception is
      caught and printed. */
  function Main(h: Host, s: Server, flags: Flags, extra: seq<string>): (r: Run)
    ensures r.thrown == None
    ensures flags.help ==> r == Run(s, [Usage], None)
    ensures !flags.help && |extra| == 0 ==> r == Run(s, [Text(NotValid(""))], None)
    ensures !flags.help && |extra| > 0 && extra[0] !in ["add", "remove", "start", "stop"] ==>
      r == Run(s, [Text(NotValid(extra[0]))], None)
    ensures !flags.help && |extra| > 0 && extra[0] == "add" ==>
      && (|extra| < 3 ==> r == Run(s, [Text(BadArity)], None))
      && (|extra| >= 3 && flags.pool != "" ==>
            r == Catch(AddSiteOnPool(h, AddApplicationPool(s, flags.pool), flags.pool, extra[1], extra[2], Port(flags.port))))
      && (|extra| >= 3 && flags.pool == "" ==>
            r == Catch(AddSiteOwnPool(h, s, extra[1], extra[2], Port(flags.port))))
    ensures !flags.help && |extra| > 0 && extra[0] in ["remove", "start", "stop"] ==>
      && (|extra| < 2 ==> r == Run(s, [Text(BadArity)], None))
      && (|extra| >= 2 && extra[0] == "remove" ==> r == Run(RemoveSite(s, extra[1]), [], None))
      && (|extra| >= 2 && extra[0] == "start" ==> r == Run(StartSiteByName(s, extra[1]), [], None))
      && (|extra| >= 2 && extra[0] == "stop" ==> r == Run(StopSiteByName(s, extra[1]), [], None))
  {
    if flags.help then Run(s, [Usage], None)
    else
      var kind := if |extra| > 0 then extra[0] else "";
      if kind == "add" then
        if !(|extra| > 2) then Catch(Run(s, [], Some(Argument(BadArity))))
        else if flags.pool != "" then
          Catch(AddSiteOnPool(h, AddApplicationPool(s, flags.pool), flags.pool, extra[1], extra[2], Port(flags.port)))
        else Catch(AddSiteOwnPool(h, s, extra[1], extra[2], Port(flags.port)))
      else if kind == "remove" then
        if !(|extra| > 1) then Catch(Run(s, [], Some(Argument(BadArity))))
        else Run(RemoveSite(s, extra[1]), [], None)
      else if kind == "start" then
        if !(|extra| > 1) then Catch(Run(s, [], Some(Argument(BadArity))))
        else Run(StartSiteByName(s, extra[1]), [], None)
      else if kind == "stop" then
        if !(|extra| > 1) then Catch(Run(s, [], Some(Argument(BadArity))))
        else Run(StopSiteByName(s, extra[1]), [], None)
      else Catch(Run(s, [], Some(Argument(NotValid(kind)))))
  }

  /** "mksite add NAME PATH" on a server that has sites but none named
      NAME, with an absolute PATH: a pool named NAME exists afterwards and
      the new site, last in the list, runs on it with its root at PATH on
      port 80. */
  lemma AddWithoutPoolUsesSiteName(h: Host, s: Server, name: string, path: string)
    requires |s.sites| > 0 && forall j :: 0 <= j < |s.sites| ==> s.sites[j].name != name
    requires IsRooted(path)
    ensures var r := Main(h, s, Flags(false, "", None), ["add", name, path]);
      && name in r.server.pools
      && |r.server.sites| == |s.sites| + 1
      && r.server.sites[|s.sites|] == Site(name, "http", "*:80:*", name, Unknown, [App("/", path)])
  {
    var p := AddApplicationPool(s, name);
    assert p.sites == s.sites;
    assert Binding("*", 80, "*") == "*:80:*" by {
      assert Digits(80) == "80" by {
        assert Digits(8) == "8";
      }
    }
  }

  /** "mksite add NAME PATH --pool P" creates or reuses P and puts the
      site on it. */
  lemma AddWithPoolUsesIt(h: Host, s: Server, pool: string, name: string, path: string)
    requires pool != ""
    requires |s.sites| > 0 && forall j :: 0 <= j < |s.sites| ==> s.sites[j].name != name
    requires IsRooted(path)
    ensures var r := Main(h, s, Flags(false, pool, None), ["add", name, path]);
      && pool in r.server.pools
      && |r.server.sites| == |s.sites| + 1
      && r.server.sites[|s.sites|].pool == pool
      && r.server.sites[|s.sites|].apps == [App("/", path)]
  {
    var p := AddApplicationPool(s, pool);
    assert p.sites == s.sites;
  }

  /** Help, a short argument list and an unknown subcommand never change
      the server. */
  lemma RejectedCommandsChangeNothing(h: Host, s: Server, flags: Flags, extra: seq<string>)
    requires || flags.help
             || |extra| == 0
             || extra[0] !in ["add", "remove", "start", "stop"]
             || (extra[0] == "add" && |extra| < 3)
             || (extra[0] != "add" && |extra| < 2)
    ensures Main(h, s, flags, extra).server == s
  {
  }
}
