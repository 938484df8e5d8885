# iismgr core, modelled in Dafny

iismgr is a set of small command-line tools (`mkapp`, `rmapp`, `mksite`,
`mkpool`) over an `IISHandler` class that drives the IIS server manager
(`Microsoft.Web.Administration.ServerManager`). This project models three
parts of it:

- `PathHelper`, which infers things from paths on disk. It checks for
  excluded folders and wildcards, expands a wildcard, walks a directory
  tree and suggests a virtual path for an application.
- The handler's operations on the configuration store: application pools,
  sites and their run state, and applications.
- The four scripts that compose those operations, including their
  argument dispatch.

The server manager is an immutable record `Server(pools, sites, commits)`:

- a pool is its name;
- a site holds its name, protocol, binding string, default pool, run state
  and applications;
- an application is `App(vpath, ppath)`;
- `commits` counts calls to `CommitChanges`.

Every operation is a pure function from the old server to the new one. A
site object handed to the handler is the site's position in `sites`. An
exception that escapes is a `Fail`/`thrown` value and leaves the server
unchanged. What a command prints is a sequence of `Line`s, where `Usage`
stands for the usage text. Lookups keep the first-match semantics of
`FirstOrDefault` and of the collection indexers.

The disk is a `Host`: a directory tree (`Dir(name, children)`), the working
directory, and a predicate that decides whether a directory name matches a
glob. `Directory.GetDirectories` lists the children of the directory found
at a path, combined with that path.

Modules:

- `Outcomes`: Option, Result, the exceptions and console lines.
- `Seqs`: first and last match, filtering, and `List.Remove`.
- `Strs`: the `System.String` pieces, plus Int32 formatting and parsing.
- `Entities`: the server-manager objects.
- `Paths`: `PathHelper` and the `System.IO.Path` pieces it uses.
- `Store`: both `IISHandler` files.
- `RmApp`, `MkApp`, `MkSite`, `MkPool`: the scripts.

## Model

| member | source | states |
|---|---|---|
| Seqs.FirstIndex | IISH/IISHandler.cs:109 | `FirstOrDefault`: the result is the first position whose element satisfies the test, and None exactly when no element does |
| Seqs.LastIndex | IISHandler.cs:18 | `LastIndexOf`: the result is the last matching position, or -1 when nothing after it (that is, nothing at all) matches |
| Seqs.RemoveFirst | IISHandler.cs:47 | `List.Remove`: an absent element leaves the list alone; otherwise the list loses exactly one copy of it (one shorter, same multiset less that element) |
| Seqs.RemoveFirstMatch | IISH/IISHandler.cs:109-112 | Removing the element that a first-match search found drops exactly that position and keeps the rest in order |
| Seqs.RemoveEachKept | IISHandler.cs:42-49 | Collecting the entries that pass a test and then calling `Remove` once for each leaves exactly the entries that fail it, in order |
| Seqs.RemoveEach | IISHandler.cs:42-49 | One `Remove` per staged entry shortens the list by at most the number of entries and never lengthens it |
| Seqs.RemoveEachMultiset | IISHandler.cs:42-49 | One `Remove` per staged entry leaves the list less one copy per entry, as far as the list has copies (multiset difference) |
| Seqs.RemoveFirstMultiset | IISHandler.cs:47 | `List.Remove` takes at most one copy of the element away, whether or not it occurs |
| Seqs.FilterDistinct | IISHandler.cs:25 | Selecting the matching entries of a listing without repeats gives a listing without repeats |
| Seqs.FilterIdempotent | IISHandler.cs:42-49 | Re-filtering with the same exclusion test changes nothing, so filtering again at each level of the recursion is harmless |
| Seqs.FilterConcat | IISHandler.cs:34-40 | Filtering the concatenation of a level's children and its subtrees' results is filtering each part |
| Seqs.FilterNone | Scripts/rmapp.cs:99-101 | When every element fails the kept side of the test, the filter keeps nothing |
| Strs.Lower | IISHandler.cs:62 | `ToLower` keeps the length, leaves no upper-case letter, turns each upper-case letter into its lower-case partner in place and keeps every other character |
| Strs.LowerIdempotent | IISHandler.cs:62 | Lower-casing twice is lower-casing once, and text without upper-case letters is its own lower-case form |
| Strs.ReplaceAll | IISHandler.cs:86 | `Replace`: a same-length replacement keeps the length, and a replacement no longer than the text never lengthens the string |
| Strs.ReplaceAllSelf | IISHandler.cs:86 | Replacing a text by itself changes nothing |
| Strs.ReplaceAllAbsent | IISHandler.cs:86 | `Replace` of a text that never occurs gives the string back |
| Strs.ReplaceAllCanLeaveOccurrence | IISHandler.cs:86 | One left-to-right pass of `Replace(x, "")` can leave x behind: "aabb" without "ab" is "ab" |
| Strs.ReplaceChar | IISHandler.cs:87 | `Replace("\\", "/")` turns every backslash into a slash, keeps every other character, and leaves no backslash |
| Strs.SplitField | IISH/IISHandler.cs:180 | A field free of ':' that is followed by ':' splits off as the first piece of a binding string |
| Strs.Split | IISH/IISHandler.cs:180 | `String.Split` returns at least one piece and no piece contains the separator |
| Strs.SplitJoin | IISH/IISHandler.cs:180 | Joining the pieces of a split with the same separator gives the string back |
| Strs.Digits | IISH/IISHandler.cs:180 | The decimal digits of a natural number start with '0' exactly when the number is 0 |
| Strs.FormatInt | IISH/IISHandler.cs:180 | `Int32.ToString()` writes a minus sign exactly for negative values, then decimal digits without a leading zero, and never a ':' |
| Strs.FormatParseRoundTrip | Scripts/mksite.cs:61 | `Int32.TryParse` reads back every 32-bit value that `ToString` writes |
| Strs.ParseInt32 | Scripts/mksite.cs:61 | `Int32.TryParse` succeeds only with a 32-bit value; it fails on the empty text, on a first character that is neither a digit nor a sign, and on any later non-digit |
| Paths.FileName | IISHandler.cs:61 | `Path.GetFileName`: the result is a separator-free suffix of the path, preceded by a separator whenever it is not the whole path |
| Paths.DirectoryName | IISHandler.cs:94 | `Path.GetDirectoryName`: null exactly for a root or shorter; otherwise a proper prefix at least as long as the root, and nothing after it is a separator |
| Paths.DirectoryNameOfChild | IISHandler.cs:94 | `GetDirectoryName` of a drive path extended by one component is the path it was extended from |
| Paths.DirectoryInfoName | IISHandler.cs:95 | `DirectoryInfo.Name`: "" is rejected; a root of at most three characters names itself; a longer path gives its longest separator-free tail once a trailing backslash is dropped, which is the last component |
| Paths.DirectoryInfoNameOfChild | IISHandler.cs:94-96 | The name DirectoryInfo gives a combined subdirectory path, with or without a trailing backslash, is the name it was combined from |
| Paths.RootLength | IISHandler.cs:94 | `GetRootLength` is positive exactly for rooted paths, is 3 for "C:\…", and for a UNC path ends at a separator or at the end |
| Paths.UncRootEnd | IISHandler.cs:94 | The UNC root walk stops at a separator or at the end, and on its last leg it skips no separator |
| Paths.UncRoot | IISHandler.cs:94 | The root of `\\server\share\rest` is `\\server\share` |
| Paths.CombineFileName | IISHandler.cs:34 | `GetFileName` undoes `Path.Combine`: the last component of a combined path is the name, and the combined path extends the directory |
| Paths.FullPath | IISHandler.cs:82 | The model of `Path.GetFullPath` rejects only the empty path and keeps rooted paths as they are |
| Paths.LowerReserved | IISHandler.cs:62 | Lower-casing and then comparing with "app_" or "bin" is exactly the case-insensitive test on the first letters |
| Paths.IsExcludedFolder | IISHandler.cs:59-66 | True exactly when the last path component begins with "app_" or is "bin", in any casing |
| Paths.ExcludedByLeafOnly | IISHandler.cs:61-62 | Only the last component decides exclusion, whatever directory it is under |
| Paths.FileNameOfChild | IISHandler.cs:61 | The last component of dir\name is name when name has no separator |
| Paths.ExcludedName | IISHandler.cs:59-66 | A name without separators is excluded exactly when it is reserved |
| Paths.ExcludedExamples | IISHandler.cs:54-66 | App_Data, APP_CODE, BIN and bin are excluded |
| Paths.KeptExamples | IISHandler.cs:54-66 | application, binary and approved are not excluded |
| Paths.KeptBelowBin | IISHandler.cs:59-66 | `C:\www\bin\sub` is not excluded: only the last component counts |
| Paths.ContainsWildcard | IISHandler.cs:68-71 | True exactly when some character of the path is `*` |
| Paths.SplitPattern | IISHandler.cs:18-22 | The pattern is what follows the last backslash and contains none; with a backslash, the directory part (ending in one) followed by the pattern is the input; without one, the directory is "." and the pattern is the whole input |
| Paths.ExpandWildcardDirectories | IISHandler.cs:15-27 | A missing directory raises DirectoryNotFoundException naming its full path; otherwise the result is the combined paths of the matching subdirectories in enumeration order, and a path is in it exactly when it belongs to a matching subdirectory |
| Paths.ExpandedDistinct | IISHandler.cs:15-27 | When the subdirectory names are distinct, the expansion has no repeats, and the last component of each entry matches the pattern |
| Paths.ChildPathsDistinct | IISHandler.cs:25 | Different subdirectories of one directory have different full paths |
| Paths.ChildPaths | IISHandler.cs:34 | `GetDirectories` returns one entry per subdirectory; each entry's last component is the subdirectory's name, and each entry extends the directory's path |
| Paths.DirectoriesBelow | IISHandler.cs:30-52 | Nothing excluded is returned, and every immediate subdirectory that is not excluded is returned; `DirectoriesBelowFiltersDescendants` states the whole result |
| Paths.DirectoriesBelowFrom | IISHandler.cs:37-40 | The recursive calls' results hold nothing excluded |
| Paths.GetDirectoriesRecursively | IISHandler.cs:30-52 | An empty path is rejected and a missing directory raises DirectoryNotFoundException; otherwise the result is the ordered descendant list without the excluded entries, and a path is in it exactly when it is a descendant that is not excluded |
| Paths.DirectoriesBelowFiltersDescendants | IISHandler.cs:30-52 | The source's two-pass recursion equals one filter over every descendant: the immediate children, then each child's subtree in turn |
| Paths.DirectoriesBelowFromFilters | IISHandler.cs:37-40 | The concatenated results of the recursive calls are the filtered descendants of those children |
| Paths.DescendantsCount | IISHandler.cs:34-40 | There are as many descendants as directories below the root: each is collected once |
| Paths.DescendantsFromCount | IISHandler.cs:37-40 | The subtrees of the remaining children hold as many entries as those subtrees hold directories below their roots |
| Paths.ChildCount | IISHandler.cs:34 | A tree holds at least as many directories as a directory has children |
| Paths.DescendantsExtendRoot | IISHandler.cs:34-40 | Every collected path strictly extends the root's path |
| Paths.DescendantsFromExtendRoot | IISHandler.cs:37-40 | The subtrees' paths strictly extend the root's path |
| Paths.NameNotRooted | IISHandler.cs:25 | A non-empty directory name without separators is not a rooted path, so combining extends the parent's path |
| Paths.GetDirectoriesRecursivelyMembership | IISHandler.cs:30-52 | The root itself is never returned; a path is returned exactly when it is a descendant whose own last component is not reserved |
| Paths.DescendantsFromIncludes | IISHandler.cs:37-40 | A child's descendants are among the results of the recursion over the children |
| Paths.NonCascading | IISHandler.cs:37-49 | A grandchild is returned exactly when its own path is not excluded, even below an excluded folder such as bin |
| Paths.TrimSlash | IISHandler.cs:89-90 | The result is a prefix of the input at most one shorter; the input is the result plus "/" when it ends with one, and is kept otherwise |
| Paths.TrimSlashIdempotent | IISHandler.cs:88-90 | Unless the text ends with "//", the trimmed text has no trailing "/", so trimming again changes nothing |
| Paths.SuggestVirtualDirectory | IISHandler.cs:74-101 | A site with no applications gives ""; an empty path fails; a path under the root's physical path (string prefix) gives a result with no backslash (only there: see `Paths.SuggestBelowDriveRoot`); any other path gives "/" followed by a name, and fails exactly when its parent directory is missing or empty |
| Paths.SuggestUnderRootUnfold | IISHandler.cs:84-91 | A path equal to the root followed by a suffix is suggested from the rewritten suffix |
| Paths.ReplaceAllLeading | IISHandler.cs:86 | A leading occurrence of the root's path is the one `Replace` removes first |
| Paths.SuggestUnderRoot | IISHandler.cs:84-91 | Under the root, turning the suggestion's slashes back into backslashes and appending it to the root gives the physical path back |
| Paths.SuggestRootItself | IISHandler.cs:84-91 | The site's own root is suggested as "" |
| Paths.SuggestOutsideRoot | IISHandler.cs:92-97 | A drive path outside the root whose parent is not the drive root is named "/" plus its parent directory's name, not its own |
| Paths.SuggestBelowDriveRoot | IISHandler.cs:92-97 | A path directly below a drive root, outside the site's root, is named "/" plus the drive root itself, so the suggestion contains a backslash |
| Paths.SuggestDriveRootExample | IISHandler.cs:92-97 | `D:\photos` outside `C:\www` is suggested as `/D:\` |
| Paths.SuggestChildExample | IISHandler.cs:84-91 | C:\www\blog under C:\www is suggested as /blog |
| Paths.SuggestSiblingWithoutSlash | IISHandler.cs:84-91 | A sibling whose name only extends the root's text (C:\www2 next to C:\www) counts as under the root, and its suggestion is the rest of its name with no leading "/" |
| Paths.SuggestOutsideExample | IISHandler.cs:92-97 | D:\other\photos outside C:\www is suggested as /other |
| Store.Catch | Scripts/rmapp.cs:66-73 | A catch block: nothing escapes; a caught exception's message is appended to what was printed, and the server is untouched |
| Store.GetSiteByName | IISHandler.cs:226-231 | The first site with the name, or None exactly when no site has it |
| Store.GetApplicationByName | IISHandler.cs:402-406 | The first application with that virtual path, or None exactly when none has it |
| Store.AddApplicationPool | IISH/IISHandler.cs:123-157 | Afterwards the name is a pool; an existing name changes nothing (no commit); a new name appends exactly one pool and commits once |
| Store.RemoveApplicationPool | IISH/IISHandler.cs:104-120 | With no pools, nothing happens; with pools but not this name, ArgumentException "App pool N does not exist."; otherwise exactly the first pool of that name is removed, the others kept in order, and one commit |
| Store.AddApplicationPoolIdempotent | IISH/IISHandler.cs:130-136 | Adding the same pool twice is adding it once |
| Store.AddThenRemovePool | IISH/IISHandler.cs:104-157 | Removing a newly added pool restores the pool list |
| Store.Binding | IISH/IISHandler.cs:180 | The binding string begins with the IP address |
| Store.BindingFields | IISH/IISHandler.cs:180 | The binding string splits at ':' back into ip, port and host, and its port field parses back to the port |
| Store.NewSite | IISH/IISHandler.cs:183-186 | The new site has the given name, protocol and default pool, and one application "/" over the physical path |
| Store.AddSite | IISH/IISHandler.cs:171-195 | With no sites, or with the name taken, the result is unchanged and null; otherwise exactly one site (binding ip:port:host, the pool as its default, root application at the path) is appended, its position returned, with one commit |
| Store.RemoveSite | IISH/IISHandler.cs:201-212 | A missing name changes nothing and raises nothing; otherwise exactly the first site of that name is removed and one commit |
| Store.AddSiteTwice | IISH/IISHandler.cs:174-178 | A second add under the same name is refused with null and no change |
| Store.AddThenRemoveSite | IISH/IISHandler.cs:171-212 | Removing a newly added site restores the site list |
| Store.AfterStart | IISH/IISHandler.cs:216-217 | Only Stopped moves: the state after a start is Started exactly when it was Stopped or Started |
| Store.AfterStop | IISH/IISHandler.cs:223-224 | Only Started moves: the state after a stop is Stopped exactly when it was Started or Stopped |
| Store.StartSite | IISH/IISHandler.cs:214-219 | Only the site's state changes, as AfterStart says; every other site is kept; one commit in every case |
| Store.StopSite | IISH/IISHandler.cs:221-226 | Only the site's state changes, as AfterStop says; every other site is kept; one commit in every case |
| Store.StartSiteByName | IISH/IISHandler.cs:233-242 | No sites: no change. Missing name: no state change, one commit. Found: the first site of that name is started, with two commits |
| Store.StopSiteByName | IISH/IISHandler.cs:248-257 | No sites: no change. Missing name: no state change, one commit. Found: the first site of that name is stopped, with two commits |
| Store.StopThenStart | IISH/IISHandler.cs:214-226 | Stopping a started site and starting it again restores the sites; starting twice is starting once |
| Store.AppendApp | IISHandler.cs:417 | `Applications.Add` appends (virpath, physpath) to the one site without any existence check, touching nothing else |
| Store.AddApplication | IISHandler.cs:415-420 | The same append, followed by one commit |
| Store.RemoveApplicationNonCommit | IISHandler.cs:430-433 | An absent application changes nothing; otherwise exactly the first equal application leaves that site, the others are kept in order, other sites and pools are untouched, and nothing is committed |
| Store.RemoveApplication | IISHandler.cs:423-427 | The same removal, followed by one commit |
| Store.RemoveNamedApp | IISHandler.cs:443-448 | The application name is printed; with no application of that name, ArgumentException "Application A does not exist inside S" and no change; otherwise exactly the first one is removed and committed |
| Store.RemoveApplicationByName | IISHandler.cs:437-449 | A missing site raises ArgumentException "Site S does not exist." before printing; otherwise the named application is removed from the first site of that name |
| Store.AddThenRemoveApplication | IISHandler.cs:415-449 | Removing by name an application just added under a fresh virtual path restores the site's applications |
| Store.SiteFoundAfterAppend | IISHandler.cs:439 | Appending an application does not change which site the name lookup finds |
| Store.AppendedIsFound | IISHandler.cs:444 | An application appended under a fresh virtual path is the one the lookup by that path finds |
| Store.RemoveAppended | IISHandler.cs:425 | Removing the just-appended application leaves the earlier applications |
| Store.RemoveByNameFound | IISHandler.cs:437-449 | When site and application are both found, the removal by name removes that application, and prints its name |
| RmApp.Announce | Scripts/rmapp.cs:49-51 | One "Removing app" line per staged application |
| RmApp.RemoveEachNonCommit | Scripts/rmapp.cs:49-60 | Calling RemoveApplicationNonCommit once per staged application removes them one by one from that site only, with no commit |
| RmApp.RemoveStaged | Scripts/rmapp.cs:46-62 | Staging, then removing one by one, then committing once: the site keeps exactly its applications that fail the test, in order; one announcement per staged application; no other site or pool changes |
| RmApp.RemoveMatching | Scripts/rmapp.cs:36-64 | Missing site: printed, no change. Pattern directory missing: the exception escapes. Otherwise exactly the applications whose physical path is among the expanded directories are removed, the root included, with one commit |
| RmApp.RemoveApplication | Scripts/rmapp.cs:26-74 | "/" is refused with the message and no change; a name with `*` takes the wildcard branch; any other name goes to the handler, whose exception is printed rather than propagated |
| RmApp.QualifiedPrefix | Scripts/rmapp.cs:94-97 | The prefix always starts with the site name: it is kept when it already does, else the name is put in front |
| RmApp.QualifiedPrefixIdempotent | Scripts/rmapp.cs:94-97 | Qualifying an already qualified prefix changes nothing |
| RmApp.RemoveApplicationRecursively | Scripts/rmapp.cs:76-121 | "/" is refused and a missing site reported, with no change; otherwise exactly the applications whose display string starts with the qualified prefix are removed, with one commit |
| RmApp.Main | Scripts/rmapp.cs:124-170 | -h prints usage only; exactly two positional arguments are acted on, recursively with -r; any other count prints "Invalid usage. Use --help."; no exception escapes |
| RmApp.RootArgumentChangesNothing | Scripts/rmapp.cs:29-33 | An argument "/" leaves the server as it was, in either form |
| RmApp.WildcardRemovesRoot | Scripts/rmapp.cs:45-62 | The staged removal with the wildcard test does not spare the root application when its physical path is among the expanded directories |
| RmApp.EmptyPrefixRemovesAll | Scripts/rmapp.cs:94-101 | An empty prefix becomes the site name, which every display string starts with, so every application goes, the root included |
| MkApp.AddExplicit | Scripts/mkapp.cs:28-40 | An empty physical path is rejected; otherwise both lines are printed; an existing site gets (virPath, full path) appended; a missing site gets nothing; one commit either way |
| MkApp.AddInferred | Scripts/mkapp.cs:44-65 | A wildcard path prints the expanded directories and changes nothing; otherwise the application is added under the suggested virtual path, or under "" when the site is missing |
| MkApp.Main | Scripts/mkapp.cs:68-104 | -h prints usage and does not stop the dispatch: two arguments give an inferred add, three an explicit add, any other count usage; no exception escapes |
| MkApp.HelpDoesNotStop | Scripts/mkapp.cs:71 | -h changes only what is printed, never the resulting server |
| MkApp.AddExplicitThenRemove | Scripts/mkapp.cs:36-39 | An explicit add of a fresh virtual path is undone by the handler's removal by name |
| MkApp.InferredChildExample | Scripts/mkapp.cs:58-63 | On a site rooted at C:\www, adding C:\www\blog appends the application /blog |
| MkSite.Port | Scripts/mksite.cs:56-61 | Port 80 without --port; a --port text that is not a 32-bit number gives 0; always a 32-bit value |
| MkSite.PortRoundTrip | Scripts/mksite.cs:61 | A --port given as a decimal 32-bit number is that port |
| MkSite.AddSiteOnPool | Scripts/mksite.cs:24-28 | An empty file path is rejected; a rooted path is used as it is; the handler adds an http site on all addresses and hosts |
| MkSite.AddSiteOwnPool | Scripts/mksite.cs:30-34 | A pool named after the site always exists afterwards: it is created or reused first, and an empty path is rejected only after that |
| MkSite.Main | Scripts/mksite.cs:52-133 | -h prints usage only; add needs three positional arguments, remove, start and stop two, else "Invalid number of arguments."; an unknown or missing subcommand is named in the error; add uses --pool when given, else a pool named after the site; no exception escapes |
| MkSite.AddWithoutPoolUsesSiteName | Scripts/mksite.cs:101-102 | Without --pool the new site runs on a pool named after it, bound to *:80:*, rooted at the path |
| MkSite.AddWithPoolUsesIt | Scripts/mksite.cs:96-100 | With --pool the pool exists afterwards and the new site runs on it |
| MkSite.RejectedCommandsChangeNothing | Scripts/mksite.cs:76-127 | Help, a short argument list or an unknown subcommand leave the server unchanged |
| MkPool.Main | Scripts/mkpool.cs:23-69 | -h prints usage only; fewer than two positional arguments prints "Not enough arguments."; add adds or reuses, remove removes or prints its error; other subcommands do nothing; no exception escapes |
| MkPool.AddThenRemove | Scripts/mkpool.cs:56-63 | "add N" then "remove N" for a new N restores the pools |
| MkPool.AddTwice | Scripts/mkpool.cs:56-59 | "add N" twice is "add N" once |
| MkPool.RemoveMissing | Scripts/mkpool.cs:60-67 | "remove N" for a missing N prints "App pool N does not exist." and changes nothing |

## Left out

- The `List*` methods of both handler files and `lsiis`: console formatting only.
- `wpsetup`: reading files, creating directories and setting ACLs, all filesystem and security I/O.
- `IISH/Program.cs` and `IISH/Shell.cs`: a manual run against a live server and a console listing, with no logic of their own.
- `IISRoot` returns a constant that no modelled operation uses.
- The remote-host constructor is not modelled. `CommitChanges` is a counter: durability and the server's binding-conflict checks are not modelled.
- Option parsing by NDesk.Options is not modelled: each `Main` takes the flags and the positional list it would produce, and a malformed option is not modelled.
- `Path.GetFullPath` does no normalisation here. Rooted paths are kept, "." is the working directory, and other relative paths are combined with it. `..`, repeated separators and invalid characters are not modelled.
- Paths.Lookup: the file system is case-sensitive in the model and resolves only backslash-separated components; Windows is case-insensitive and accepts '/'.
- The glob match inside `Directory.GetDirectories` is the host's `matches` predicate.
- Strs.Lower: `ToLower` and `StartsWith` use the current culture in the source; the model uses ASCII case mapping and ordinal comparison.
- Strs.ReplaceAll: it requires a non-empty text to replace. `String.Replace` throws for an empty one, and `SuggestVirtualDirectory`, the only caller, raises that exception itself before calling it.
- Strs.ParseInt32: leading and trailing white space, which `Int32.TryParse` accepts, is not modelled.
- Store.AppendApp: `Applications.Add` validates the virtual path in the library (for example, it rejects "" or a duplicate); the model appends without that check, so the contract is weaker than the library behaviour.
- Store.RemoveApplicationNonCommit: removing an application that is not in the site leaves it unchanged. Whether the library throws in that case is not modelled, and the scripts only remove applications they have just found.
- Store.AddSite: the new site's run state is `Unknown`, because the server decides it. `Sites.Add` is taken to create the root application "/" over the physical path, as the library does.
- Application.ToString() is taken to be the site name followed by the virtual path (`Entities.Display`).
- Paths.SuggestVirtualDirectory: the source's fallback names the path's parent directory, not the path itself, and the model follows the code; `Paths.SuggestOutsideRoot` states it.
- Paths.SuggestVirtualDirectory: the result is free of backslashes only for a path under the site's root. The fallback names the parent with `DirectoryInfo.Name`, which for a drive root such as "D:\" is the root itself, backslash included; `Paths.SuggestBelowDriveRoot` states this.
