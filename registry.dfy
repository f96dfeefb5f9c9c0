/** The process-wide script pool: a table from a name to the script registered under it. */
module Registry {
  import opened Base

  /** The scripts of the package. */
  datatype Script =
    | Firewall              // script/network.go
    | PasswordSetup         // script/password_setup.go
    | ServiceConfiguration  // script/services.go
    | Network               // script/net_setup.go
    | NetworkSetup          // script/net.go
    | NetworkApps           // script/net.go
    | NetApps               // script/net_apps.go
    | UpdateDns             // script/dns.go and script/network.go

  /** `Name()` of each script. */
  function Name(s: Script): string {
    match s
    case Firewall => "firewall"
    case PasswordSetup => "pwd-setup"
    case ServiceConfiguration => "service-config"
    case Network => "network-setup"
    case NetworkSetup => "netsetup"
    case NetworkApps => "netapps"
    case NetApps => "net-apps"
    case UpdateDns => "dns-update"
  }

  /** A lookup in the table: the script under `name`, or `None` (Go's nil). */
  function Lookup(entries: map<string, Script>, name: string): (r: Option<Script>)
    ensures r.Some? <==> name in entries
    ensures r.Some? ==> r.value == entries[name]
  {
    if name in entries then Some(entries[name]) else None
  }

  /** The pool. A single object stands for the package-level map, so every holder of a
      reference sees every later registration. */
  class Pool {
    var entries: map<string, Script>

    /** The pool after package initialisation: `Firewall` under "firewall". */
    constructor Init()
      ensures entries == map["firewall" := Firewall]
    {
      entries := map["firewall" := Firewall];
    }

    /** `AvailableScripts`: the live pool itself, not a copy. */
    method AvailableScripts() returns (p: Pool)
      ensures p == this
    {
      p := this;
    }

    /** `GetScript`. */
    function GetScript(name: string): (r: Option<Script>)
      reads this
      ensures r == Lookup(entries, name)
    {
      if name in entries then Some(entries[name]) else None
    }

    /** `RegisterScript`: files `s` under the given name, replacing what was there. */
    method RegisterScript(name: string, s: Script)
      modifies this
      ensures entries == old(entries)[name := s]
    {
      entries := entries[name := s];
    }
  }

  /** After registering `s` under `name`, looking `name` up gives `s` whatever was there
      before, whatever `s`'s own name is, and every other name looks up as before. */
  lemma RegisterThenLookup(entries: map<string, Script>, name: string, s: Script, other: string)
    ensures Lookup(entries[name := s], name) == Some(s)
    ensures other != name ==> Lookup(entries[name := s], other) == Lookup(entries, other)
  {
  }

  /** A name never registered looks up as nil. */
  lemma NeverRegistered(entries: map<string, Script>, name: string)
    requires name !in entries
    ensures Lookup(entries, name) == None
  {
  }

  /** The pool is keyed by the name given at registration: registering a script under a
      name other than its own leaves its own name unregistered in a fresh table. */
  lemma KeyedByArgument(name: string, s: Script)
    requires name != Name(s)
    ensures Lookup(map[][name := s], Name(s)) == None
    ensures Lookup(map[][name := s], name) == Some(s)
  {
  }

  /** Registrations made after `AvailableScripts` are visible through its result, because
      it is the pool itself. */
  method SeenThroughEarlierView(pool: Pool, name: string, s: Script) returns (view: Pool)
    modifies pool
    ensures view == pool
    ensures view.GetScript(name) == Some(s)
  {
    view := pool.AvailableScripts();
    pool.RegisterScript(name, s);
  }
}
