/** The mkpool command: add or remove an application pool. */
module MkPool {
  import opened Outcomes
  import opened Entities
  import opened Store

  /** mkpool's Main: -h prints usage and does nothing else; fewer than two
      positional arguments is an error; "add NAME" adds or reuses the pool,
      "remove NAME" removes it, printing the error for a missing one; any
      other subcommand does nothing. */
  function Main(s: Server, help: bool, extra: seq<string>): (r: Run)
    ensures r.thrown == None
    ensures help ==> r == Run(s, [Usage], None)
    ensures !help && |extra| < 2 ==> r == Run(s, [Text("Not enough arguments.")], None)
    ensures !help && |extra| >= 2 && extra[0] == "add" ==>
      r == Run(AddApplicationPool(s, extra[1]), [], None)
    ensures !help && |extra| >= 2 && extra[0] == "remove" ==>
      match RemoveApplicationPool(s, extra[1])
      case Ok(t) => r == Run(t, [], None)
      case Fail(e) => r == Run(s, [Text(e.Message())], None)
    ensures !help && |extra| >= 2 && extra[0] != "add" && extra[0] != "remove" ==>
      r == Run(s, [], None)
  {
    if help then Run(s, [Usage], None)
    else if !(|extra| > 1) then Catch(Run(s, [], Some(Argument("Not enough arguments."))))
    else
      var kind := extra[0];
      if kind == "add" then Run(AddApplicationPool(s, extra[1]), [], None)
      else if kind == "remove" then
        match RemoveApplicationPool(s, extra[1])
        case Ok(t) => Run(t, [], None)
        case Fail(e) => Catch(Run(s, [], Some(e)))
      else Run(s, [], None)
  }

  /** "mkpool add NAME" then "mkpool remove NAME", for a new NAME, gives
      back the pools it started with. */
  lemma AddThenRemove(s: Server, name: string)
    requires name !in s.pools
    ensures var added := Main(s, false, ["add", name]).server;
      Main(added, false, ["remove", name]) == Run(s.(commits := s.commits + 2), [], None)
  {
    AddThenRemovePool(s, name);
  }

  /** "mkpool add NAME" twice is "mkpool add NAME" once. */
  lemma AddTwice(s: Server, name: string)
    ensures var once := Main(s, false, ["add", name]).server;
      Main(once, false, ["add", name]).server == once
  {
  }

  /** "mkpool remove NAME" for a NAME that is not there, when there are
      pools, prints the error and changes nothing. */
  lemma RemoveMissing(s: Server, name: string)
    requires |s.pools| > 0 && name !in s.pools
    ensures Main(s, false, ["remove", name])
      == Run(s, [Text("App pool " + name + " does not exist.")], None)
  {
  }
}
