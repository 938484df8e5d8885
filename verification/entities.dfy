/** The configuration objects the server manager exposes, as immutable
    values: application pools (by name), sites with their binding, default
    pool, run state and applications, and a count of CommitChanges calls. */
module Entities {

  /** Microsoft.Web.Administration.ObjectState. */
  datatype ObjectState = Starting | Started | Stopping | Stopped | Unknown

  /** An application: its virtual path and the physical path of its "/"
      virtual directory. */
  datatype App = App(vpath: string, ppath: string)

  /** A site: name, binding protocol, binding information "ip:port:host",
      the application pool its applications default to, its run state and
      its applications in configuration order (index 0 is the root). */
  datatype Site = Site(
    name: string,
    protocol: string,
    binding: string,
    pool: string,
    state: ObjectState,
    apps: seq<App>)

  /** The server manager: pools and sites in configuration order, and how
      many times CommitChanges has been called. */
  datatype Server = Server(pools: seq<string>, sites: seq<Site>, commits: nat)

  /** Application.ToString(), taken to be the site name followed by the
      virtual path. */
  function Display(site: Site, app: App): string {
    site.name + app.vpath
  }
}
