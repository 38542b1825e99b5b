/** The server's client routes: three indexes over the registered connections. A connection is an identity; `hostOf`
    gives the host part of its remote address, "" when it has none. */
module Route {
  import opened Bytes

  type Conn = nat

  datatype Routes = Routes(byIP: map<string, Conn>, byConn: map<Conn, string>, byHost: map<string, set<Conn>>)

  const EMPTY: Routes := Routes(map[], map[], map[])

  // ---- what the operations do to the indexes ----

  function HostWithout(byHost: map<string, set<Conn>>, host: string, gone: set<Conn>): map<string, set<Conn>> {
    if host != "" && host in byHost then byHost[host := byHost[host] - gone] else byHost
  }

  function HostWith(byHost: map<string, set<Conn>>, host: string, c: Conn): map<string, set<Conn>> {
    if host == "" then byHost else byHost[host := (if host in byHost then byHost[host] else {}) + {c}]
  }

  /** The registered connection that registering c under ip displaces. */
  function Displaced(r: Routes, c: Conn, ip: string): Option<Conn> {
    var byIP := Vacated(r, c);
    if ip in byIP && byIP[ip] != c then Some(byIP[ip]) else None
  }

  /** byIP once c has given up its address. */
  function Vacated(r: Routes, c: Conn): map<string, Conn> {
    if c in r.byConn && r.byConn[c] != "" then r.byIP - {r.byConn[c]} else r.byIP
  }

  function Registered(hostOf: Conn -> string, r: Routes, c: Conn, ip: string): Routes {
    match Displaced(r, c, ip)
    case None =>
      Routes(Vacated(r, c)[ip := c], r.byConn[c := ip], HostWith(r.byHost, hostOf(c), c))
    case Some(other) =>
      Routes(Vacated(r, c)[ip := c], (r.byConn - {other})[c := ip],
             HostWith(HostWithout(r.byHost, hostOf(other), {other}), hostOf(c), c))
  }

  function Removed(hostOf: Conn -> string, r: Routes, c: Conn): Routes {
    Routes(Vacated(r, c), r.byConn - {c}, HostWithout(r.byHost, hostOf(c), {c}))
  }

  /** The roamed sessions of a host: all but `keep` that have been silent for too long. */
  function Stale(r: Routes, host: string, keep: Conn, silent: set<Conn>): set<Conn> {
    if host in r.byHost then set c | c in r.byHost[host] && c != keep && c in silent else {}
  }

  function Reaped(r: Routes, host: string, stale: set<Conn>): Routes {
    Routes(r.byIP - (set c | c in stale && c in r.byConn :: r.byConn[c]), r.byConn - stale,
           if host in r.byHost then r.byHost[host := r.byHost[host] - stale] else r.byHost)
  }

  // ---- consistency ----

  predicate Listed(byHost: map<string, set<Conn>>, host: string, c: Conn) {
    host in byHost && c in byHost[host]
  }

  ghost predicate Inverse(byIP: map<string, Conn>, byConn: map<Conn, string>) {
    && (forall ip :: ip in byIP ==> byIP[ip] in byConn && byConn[byIP[ip]] == ip)
    && (forall c :: c in byConn ==> byConn[c] in byIP && byIP[byConn[c]] == c)
  }

  ghost predicate Grouped(hostOf: Conn -> string, byConn: map<Conn, string>, byHost: map<string, set<Conn>>) {
    forall host, c :: Listed(byHost, host, c) <==> c in byConn && host == hostOf(c) && host != ""
  }

  /** byIP and byConn are mutual inverses, and byHost partitions the registered connections that have a host. */
  ghost predicate Consistent(hostOf: Conn -> string, r: Routes) {
    Inverse(r.byIP, r.byConn) && Grouped(hostOf, r.byConn, r.byHost)
  }

  lemma RegisterGroups(hostOf: Conn -> string, r: Routes, c: Conn, ip: string)
    requires Grouped(hostOf, r.byConn, r.byHost)
    ensures var r' := Registered(hostOf, r, c, ip); Grouped(hostOf, r'.byConn, r'.byHost)
  {
    var r' := Registered(hostOf, r, c, ip);
    forall host, d ensures Listed(r'.byHost, host, d) <==> d in r'.byConn && host == hostOf(d) && host != "" {
      assert Listed(r.byHost, host, d) <==> d in r.byConn && host == hostOf(d) && host != "";
    }
  }

  /** register keeps the indexes consistent exactly unless it moves a connection away from the empty address, whose
      entry the code never deletes. */
  lemma RegisterKeeps(hostOf: Conn -> string, r: Routes, c: Conn, ip: string)
    requires Consistent(hostOf, r)
    ensures Consistent(hostOf, Registered(hostOf, r, c, ip)) <==> !(c in r.byConn && r.byConn[c] == "" && ip != "")
  {
    RegisterGroups(hostOf, r, c, ip);
    var r' := Registered(hostOf, r, c, ip);
    if c in r.byConn && r.byConn[c] == "" && ip != "" {
      assert "" in r'.byIP && r'.byIP[""] == c && r'.byConn[c] == ip;
    } else {
      assert Inverse(r'.byIP, r'.byConn);
    }
  }

  /** remove keeps them exactly unless the connection is registered under the empty address. */
  lemma RemoveKeeps(hostOf: Conn -> string, r: Routes, c: Conn)
    requires Consistent(hostOf, r)
    ensures Consistent(hostOf, Removed(hostOf, r, c)) <==> !(c in r.byConn && r.byConn[c] == "")
  {
    var r' := Removed(hostOf, r, c);
    forall host, d ensures Listed(r'.byHost, host, d) <==> d in r'.byConn && host == hostOf(d) && host != "" {
      assert Listed(r.byHost, host, d) <==> d in r.byConn && host == hostOf(d) && host != "";
    }
    if c in r.byConn && r.byConn[c] == "" {
      assert "" in r'.byIP && r'.byIP[""] == c && c !in r'.byConn;
    } else {
      assert Inverse(r'.byIP, r'.byConn);
    }
  }

  lemma ReapKeeps(hostOf: Conn -> string, r: Routes, host: string, keep: Conn, silent: set<Conn>)
    requires Consistent(hostOf, r)
    ensures Consistent(hostOf, Reaped(r, host, Stale(r, host, keep, silent)))
  {
    var stale := Stale(r, host, keep, silent);
    var r' := Reaped(r, host, stale);
    forall h, d ensures Listed(r'.byHost, h, d) <==> d in r'.byConn && h == hostOf(d) && h != "" {
      assert Listed(r.byHost, h, d) <==> d in r.byConn && h == hostOf(d) && h != "";
      assert Listed(r.byHost, host, d) <==> d in r.byConn && host == hostOf(d) && host != "";
    }
    forall c | c in r'.byConn ensures r'.byConn[c] in r'.byIP && r'.byIP[r'.byConn[c]] == c {
      forall d | d in stale && d in r.byConn ensures r.byConn[d] != r.byConn[c] {
        assert r.byIP[r.byConn[d]] == d;
      }
    }
  }

  // ---- runs ----

  datatype Event =
    | Register(c: Conn, ip: string)
    | Remove(c: Conn)
    | Reap(host: string, keep: Conn, silent: set<Conn>)

  function Apply(hostOf: Conn -> string, r: Routes, e: Event): Routes {
    match e
    case Register(c, ip) => Registered(hostOf, r, c, ip)
    case Remove(c) => Removed(hostOf, r, c)
    case Reap(host, keep, silent) => Reaped(r, host, Stale(r, host, keep, silent))
  }

  function Run(hostOf: Conn -> string, events: seq<Event>): Routes {
    if events == [] then EMPTY else Apply(hostOf, Run(hostOf, events[..|events| - 1]), events[|events| - 1])
  }

  /** No registration uses the empty address, as the callers of register guarantee. */
  predicate Addressed(events: seq<Event>) {
    forall i :: 0 <= i < |events| && events[i].Register? ==> events[i].ip != ""
  }

  /** Whether an event takes ip away from its owner c: c is removed, is reaped, moves to another address, or another
      connection registers under ip. */
  predicate Loses(hostOf: Conn -> string, e: Event, c: Conn, ip: string) {
    match e
    case Register(d, ip') => (d == c && ip' != ip) || (d != c && ip' == ip)
    case Remove(d) => d == c
    case Reap(host, keep, silent) => host != "" && hostOf(c) == host && c != keep && c in silent
  }

  /** The last registrant of ip that has kept it since. */
  function Owner(hostOf: Conn -> string, events: seq<Event>, ip: string): Option<Conn> {
    if events == [] then None
    else
      var before, e := events[..|events| - 1], events[|events| - 1];
      if e.Register? && e.ip == ip then Some(e.c)
      else match Owner(hostOf, before, ip)
        case None => None
        case Some(c) => if Loses(hostOf, e, c, ip) then None else Some(c)
  }

  function Lookup(r: Routes, ip: string): Option<Conn> {
    if ip in r.byIP then Some(r.byIP[ip]) else None
  }

  /** One event moves the looked-up connection as ownership says. */
  lemma ApplyLookup(hostOf: Conn -> string, r: Routes, e: Event, ip: string)
    requires Consistent(hostOf, r) && "" !in r.byIP && (e.Register? ==> e.ip != "")
    ensures var r' := Apply(hostOf, r, e);
      Lookup(r', ip) ==
      if e.Register? && e.ip == ip then Some(e.c)
      else match Lookup(r, ip)
        case None => None
        case Some(c) => if Loses(hostOf, e, c, ip) then None else Some(c)
  {
    if e.Reap? && ip in r.byIP {
      var c, stale := r.byIP[ip], Stale(r, e.host, e.keep, e.silent);
      assert Listed(r.byHost, e.host, c) <==> c in r.byConn && e.host == hostOf(c) && e.host != "";
      if c !in stale {
        forall d | d in stale && d in r.byConn ensures r.byConn[d] != ip {
          assert r.byIP[r.byConn[d]] == d;
        }
      }
    }
  }

  /** On every run the indexes are consistent, and lookup returns the last registrant of the address that has not
      since been removed, reaped, displaced or moved to another address. */
  lemma {:induction false} LookupIsOwner(hostOf: Conn -> string, events: seq<Event>, ip: string)
    requires Addressed(events)
    ensures Consistent(hostOf, Run(hostOf, events)) && "" !in Run(hostOf, events).byIP
    ensures Lookup(Run(hostOf, events), ip) == Owner(hostOf, events, ip)
  {
    if events != [] {
      var before, e := events[..|events| - 1], events[|events| - 1];
      LookupIsOwner(hostOf, before, ip);
      var r := Run(hostOf, before);
      assert forall c :: c in r.byConn ==> r.byConn[c] != "";
      match e {
        case Register(c, a) => RegisterKeeps(hostOf, r, c, a);
        case Remove(c) => RemoveKeeps(hostOf, r, c);
        case Reap(host, keep, silent) => ReapKeeps(hostOf, r, host, keep, silent);
      }
      ApplyLookup(hostOf, r, e, ip);
      ApplyLookup(hostOf, r, e, "");
    }
  }

  /** With the empty address allowed, a removed connection can stay the owner of an address for ever. */
  lemma EmptyAddressLeaks(hostOf: Conn -> string)
    ensures var events := [Register(0, ""), Remove(0)];
      Lookup(Run(hostOf, events), "") == Some(0) && Owner(hostOf, events, "") == None
  {
    var events := [Register(0, ""), Remove(0)];
    assert events[..1] == [Register(0, "")] && events[..1][..0] == [];
    assert Run(hostOf, events[..1]) == Registered(hostOf, EMPTY, 0, "");
    assert Owner(hostOf, events[..1], "") == Some(0);
  }

  class ClientRoute {
    const hostOf: Conn -> string
    var byIP: map<string, Conn>
    var byConn: map<Conn, string>
    var byHost: map<string, set<Conn>>

    function View(): Routes
      reads this
    {
      Routes(byIP, byConn, byHost)
    }

    constructor (hostOf: Conn -> string)
      ensures View() == EMPTY && this.hostOf == hostOf
    {
      this.hostOf := hostOf;
      byIP, byConn, byHost := map[], map[], map[];
    }

    method Register(conn: Conn, ip: string) returns (displaced: Option<Conn>)
      modifies this
      ensures View() == Registered(hostOf, old(View()), conn, ip)
      ensures displaced == Displaced(old(View()), conn, ip)
    {
      if conn in byConn && byConn[conn] != "" {
        byIP := byIP - {byConn[conn]};
      }
      displaced := None;
      if ip in byIP && byIP[ip] != conn {
        var other := byIP[ip];
        displaced := Some(other);
        byConn := byConn - {other};
        Unlist(other);
      }
      byConn := byConn[conn := ip];
      byIP := byIP[ip := conn];
      List(conn);
    }

    /** Take a connection out of the group of its host. */
    method Unlist(conn: Conn)
      modifies this`byHost
      ensures byHost == HostWithout(old(byHost), hostOf(conn), {conn})
    {
      var host := hostOf(conn);
      if host != "" && host in byHost {
        byHost := byHost[host := byHost[host] - {conn}];
      }
    }

    /** Put a connection into the group of its host, which is created when it is the first. */
    method List(conn: Conn)
      modifies this`byHost
      ensures byHost == HostWith(old(byHost), hostOf(conn), conn)
    {
      var host := hostOf(conn);
      if host != "" {
        if host !in byHost {
          byHost := byHost[host := {}];
        }
        byHost := byHost[host := byHost[host] + {conn}];
      }
    }

    method ReapRoamed(host: string, keep: Conn, silent: set<Conn>) returns (stale: seq<Conn>)
      modifies this
      ensures View() == Reaped(old(View()), host, Stale(old(View()), host, keep, silent))
      ensures forall c :: c in stale <==> c in Stale(old(View()), host, keep, silent)
      ensures forall i, j :: 0 <= i < j < |stale| ==> stale[i] != stale[j]
    {
      stale := Collect(host, keep, silent);
      ghost var was := View();
      ghost var done: set<Conn> := {};
      ReapNone(was, host);
      hide Reaped, Stale;
      for i := 0 to |stale|
        invariant done == set k | 0 <= k < i :: stale[k]
        invariant View() == Reaped(was, host, done)
      {
        var conn := stale[i];
        ReapOne(was, host, done, conn);
        done := done + {conn};
        if host in byHost {
          byHost := byHost[host := byHost[host] - {conn}];
        }
        if conn in byConn {
          var ip := byConn[conn];
          byConn := byConn - {conn};
          byIP := byIP - {ip};
        }
      }
      assert done == Stale(was, host, keep, silent) by {
        assert forall c :: c in done <==> c in stale;
      }
    }

    /** The stale connections of a host, in the order of some walk over its group. */
    method Collect(host: string, keep: Conn, silent: set<Conn>) returns (stale: seq<Conn>)
      ensures forall c :: c in stale <==> c in Stale(View(), host, keep, silent)
      ensures forall i, j :: 0 <= i < j < |stale| ==> stale[i] != stale[j]
    {
      stale := [];
      var group := if host in byHost then byHost[host] else {};
      var left := group;
      while left != {}
        invariant left <= group
        invariant forall c :: c in stale <==> c in group - left && c != keep && c in silent
        invariant forall i, j :: 0 <= i < j < |stale| ==> stale[i] != stale[j]
        decreases |left|
      {
        var conn :| conn in left;
        left := left - {conn};
        if conn != keep && conn in silent {
          stale := stale + [conn];
        }
      }
    }

    method Remove(conn: Conn)
      modifies this
      ensures View() == Removed(hostOf, old(View()), conn)
    {
      if conn in byConn {
        var ip := byConn[conn];
        byConn := byConn - {conn};
        if ip != "" {
          byIP := byIP - {ip};
        }
      }
      Unlist(conn);
    }
  }

  lemma ReapNone(r: Routes, host: string)
    ensures Reaped(r, host, {}) == r
  {
    assert host in r.byHost ==> r.byHost[host] - {} == r.byHost[host];
  }

  /** Reaping one more connection. */
  lemma ReapOne(r: Routes, host: string, done: set<Conn>, c: Conn)
    requires c !in done
    ensures var before, after := Reaped(r, host, done), Reaped(r, host, done + {c});
      && after.byConn == before.byConn - {c}
      && after.byIP == (if c in before.byConn then before.byIP - {before.byConn[c]} else before.byIP)
      && after.byHost
         == (if host in before.byHost then before.byHost[host := before.byHost[host] - {c}] else before.byHost)
  {
    assert host in r.byHost ==> r.byHost[host] - done - {c} == r.byHost[host] - (done + {c});
  }
}
