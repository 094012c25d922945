/**
  Servers that track the state of other servers: how the directives are resolved.
 */
module Tracking {
  import opened Basics

  /** One server: the name it is to track until that is resolved, the server it tracks, and the list of those
      that track it, which goes on in tracknext. */
  class Server {
    var trackit: Option<string>
    var track: Server?
    var trackers: Server?
    var tracknext: Server?

    /** Whether it has a check or an agent of its own. */
    const configured: bool
    const proxy: nat

    constructor (proxy: nat, configured: bool, trackit: Option<string>)
      ensures this.proxy == proxy && this.configured == configured && this.trackit == trackit
      ensures track == null && trackers == null && tracknext == null
    {
      this.proxy, this.configured, this.trackit := proxy, configured, trackit;
      track, trackers, tracknext := null, null, null;
    }
  }

  /** A backend: its servers by name. */
  datatype Proxy = Proxy(servers: map<string, Server>, disable404: bool)

  /** The backends by number, and their numbers by name. */
  datatype Config = Config(proxies: seq<Proxy>, names: map<string, nat>)

  // ---- What holds of the links ----

  type Links = map<Server, Server?>

  ghost function TrackOf(P: set<Server>): (m: Links)
    reads P
    ensures m.Keys == P
  {
    map s: Server | s in P :: s.track
  }

  type Directives = map<Server, Option<string>>

  ghost function DirectivesOf(P: set<Server>): (m: Directives)
    reads P
    ensures m.Keys == P
  {
    map s: Server | s in P :: s.trackit
  }

  ghost function HeadOf(P: set<Server>): (m: Links)
    reads P
    ensures m.Keys == P
  {
    map s: Server | s in P :: s.trackers
  }

  ghost function NextOf(P: set<Server>): (m: Links)
    reads P
    ensures m.Keys == P
  {
    map s: Server | s in P :: s.tracknext
  }

  /** For each server the servers that follow when tracking is followed to its end. */
  type Chains = map<Server, seq<Server>>

  ghost predicate ChainOf(s: Server, track: Links, chains: Chains)
    requires chains.Keys == track.Keys && s in track
  {
    if track[s] == null then chains[s] == [] else track[s] in track && chains[s] == [track[s]] + chains[track[s]]
  }

  /** There is no cycle: following the links always comes to an end. */
  ghost predicate Acyclic(track: Links, chains: Chains)
  {
    chains.Keys == track.Keys && forall s :: s in track ==> ChainOf(s, track, chains)
  }

  /** The list that begins at first. */
  ghost predicate IsList(first: Server?, next: Links, list: seq<Server>)
  {
    if list == [] then first == null
    else first == list[0] && first in next && IsList(next[first], next, list[1..])
  }

  ghost predicate ListOf(s: Server, head: Links, next: Links, lists: map<Server, seq<Server>>)
    requires s in head && s in lists
  {
    IsList(head[s], next, lists[s]) && forall i, j :: 0 <= i < j < |lists[s]| ==> lists[s][i] != lists[s][j]
  }

  ghost predicate Members(track: Links, lists: map<Server, seq<Server>>)
    requires lists.Keys == track.Keys
  {
    && (forall s, e :: s in track && e in lists[s] ==> e in track && track[e] == s)
    && (forall e :: e in track && track[e] != null ==> track[e] in track && e in lists[track[e]])
  }

  /** The list of each server holds just those that track it, each once. */
  ghost predicate Listed(track: Links, head: Links, next: Links, lists: map<Server, seq<Server>>)
  {
    && head.Keys == next.Keys == lists.Keys == track.Keys
    && (forall s :: s in track ==> ListOf(s, head, next, lists))
    && Members(track, lists)
  }

  // ---- One more link ----

  ghost function Longer(chains: Chains, n: Server, srv: Server): Chains
    requires srv in chains
  {
    map s | s in chains :: if s == n || n in chains[s] then chains[s] + [srv] + chains[srv] else chains[s]
  }

  lemma ChainOn(t: Server, chain: seq<Server>, more: seq<Server>, n: Server)
    ensures [t] + chain + more == [t] + (chain + more)
    ensures n in [t] + chain <==> t == n || n in chain
  {
  }

  lemma LongerStep(track: Links, chains: Chains, n: Server, srv: Server, s: Server)
    requires Acyclic(track, chains) && n in track && srv in track && track[n] == null
    requires s in track && s != n && track[s] != null
    ensures track[s] in track && Longer(chains, n, srv)[s] == [track[s]] + Longer(chains, n, srv)[track[s]]
  {
    assert ChainOf(s, track, chains);
    var t := track[s];
    ChainOn(t, chains[t], [srv] + chains[srv], n);
    assert chains[s] + [srv] + chains[srv] == chains[s] + ([srv] + chains[srv]);
    assert chains[t] + [srv] + chains[srv] == chains[t] + ([srv] + chains[srv]);
  }

  /** Tracking a server from which no chain leads back makes no cycle. */
  lemma LinkAcyclic(track: Links, chains: Chains, n: Server, srv: Server)
    requires Acyclic(track, chains) && n in track && srv in track && track[n] == null
    requires n != srv && n !in chains[srv]
    ensures Acyclic(track[n := srv], Longer(chains, n, srv))
  {
    var track', chains' := track[n := srv], Longer(chains, n, srv);
    forall s | s in track' ensures ChainOf(s, track', chains') {
      assert ChainOf(s, track, chains);
      if s == n {
        assert chains[n] + [srv] + chains[srv] == [srv] + chains[srv];
      } else if track[s] != null {
        LongerStep(track, chains, n, srv, s);
      }
    }
  }

  /** Following the links from s leads over p to n. */
  ghost predicate Leads(all: Links, s: Server, p: seq<Server>, n: Server)
  {
    s in all && if p == [] then all[s] == n else all[s] == p[0] && Leads(all, p[0], p[1..], n)
  }

  lemma {:induction false} LeadsShortens(all: Links, W: Chains, s: Server, p: seq<Server>, n: Server)
    requires Acyclic(all, W) && Leads(all, s, p, n)
    ensures n in all && |W[n]| < |W[s]|
    decreases |p|
  {
    assert ChainOf(s, all, W);
    if p != [] { LeadsShortens(all, W, p[0], p[1..], n); }
  }

  /** Links that lead from a server back to it have no chains. */
  lemma CycleExcludes(all: Links, W: Chains, n: Server, p: seq<Server>)
    requires Leads(all, n, p, n)
    ensures !Acyclic(all, W)
  {
    if Acyclic(all, W) { LeadsShortens(all, W, n, p, n); }
  }

  /** A server on a chain is led to, also by more links. */
  lemma {:induction false} ChainLeads(part: Links, chains: Chains, all: Links, s: Server, n: Server)
    returns (p: seq<Server>)
    requires Acyclic(part, chains) && part.Keys == all.Keys && s in part && n in chains[s]
    requires forall n :: n in part && part[n] != null ==> all[n] == part[n]
    ensures Leads(all, s, p, n)
    decreases |chains[s]|
  {
    assert ChainOf(s, part, chains);
    var t := part[s];
    if t == n {
      p := [];
    } else {
      var q := ChainLeads(part, chains, all, t, n);
      p := [t] + q;
      assert p[1..] == q;
    }
  }

  /** The cycle that a link from n makes if its chain leads back. */
  lemma LinkLeads(part: Links, chains: Chains, all: Links, n: Server, srv: Server) returns (p: seq<Server>)
    requires Acyclic(part, chains) && part.Keys == all.Keys && n in part && srv in part && all[n] == srv
    requires forall n :: n in part && part[n] != null ==> all[n] == part[n]
    requires n == srv || n in chains[srv]
    ensures Leads(all, n, p, n)
  {
    if n == srv {
      p := [];
    } else {
      var q := ChainLeads(part, chains, all, srv, n);
      p := [srv] + q;
      assert p[1..] == q;
    }
  }

  /** And tracking any other one makes a cycle. */
  lemma LinkCyclic(track: Links, chains: Chains, n: Server, srv: Server, chains': Chains)
    requires Acyclic(track, chains) && n in track && srv in track && track[n] == null
    requires n == srv || n in chains[srv]
    ensures !Acyclic(track[n := srv], chains')
  {
    var p := LinkLeads(track, chains, track[n := srv], n, srv);
    CycleExcludes(track[n := srv], chains', n, p);
  }

  lemma {:induction false} ListFrame(first: Server?, next: Links, list: seq<Server>, n: Server, to: Server?)
    requires IsList(first, next, list) && n !in list
    ensures IsList(first, next[n := to], list)
  {
    if list != [] {
      assert list[0] in list && forall e :: e in list[1..] ==> e in list;
      ListFrame(next[first], next, list[1..], n, to);
    }
  }

  lemma LinkLists(track: Links, head: Links, next: Links, lists: map<Server, seq<Server>>, n: Server, srv: Server,
      s: Server)
    requires Listed(track, head, next, lists) && n in track && srv in track && track[n] == null && s in track
    ensures ListOf(s, head[srv := n], next[n := head[srv]], lists[srv := [n] + lists[srv]])
  {
    assert ListOf(s, head, next, lists);
    assert n !in lists[s];
    ListFrame(head[s], next, lists[s], n, head[srv]);
    if s == srv { ListPushed(head[srv], next[n := head[srv]], lists[srv], n); }
  }

  lemma ListPushed(first: Server?, next: Links, list: seq<Server>, n: Server)
    requires IsList(first, next, list) && n in next && next[n] == first && n !in list
    requires forall i, j :: 0 <= i < j < |list| ==> list[i] != list[j]
    ensures IsList(n, next, [n] + list)
    ensures forall i, j :: 0 <= i < j < |[n] + list| ==> ([n] + list)[i] != ([n] + list)[j]
  {
    assert ([n] + list)[1..] == list;
  }

  /** Who is listed where, once n tracks srv. */
  lemma LinkMembers(track: Links, lists: map<Server, seq<Server>>, n: Server, srv: Server)
    requires n in track && srv in track && track[n] == null && lists.Keys == track.Keys && Members(track, lists)
    ensures Members(track[n := srv], lists[srv := [n] + lists[srv]])
  {
    var track', lists' := track[n := srv], lists[srv := [n] + lists[srv]];
    forall s, e | s in track' && e in lists'[s] ensures e in track' && track'[e] == s {
      assert s != srv || e == n || e in lists[srv];
    }
    forall e | e in track' && track'[e] != null ensures track'[e] in track' && e in lists'[track'[e]] {
      if e != n && track[e] == srv { assert e in lists[srv] && e in [n] + lists[srv]; }
      if e == n { assert n in [n] + lists[srv]; }
    }
  }

  lemma LinkListed(track: Links, head: Links, next: Links, lists: map<Server, seq<Server>>, n: Server, srv: Server)
    requires Listed(track, head, next, lists) && n in track && srv in track && track[n] == null
    ensures Listed(track[n := srv], head[srv := n], next[n := head[srv]], lists[srv := [n] + lists[srv]])
  {
    LinkMembers(track, lists, n, srv);
    forall s | s in track ensures ListOf(s, head[srv := n], next[n := head[srv]], lists[srv := [n] + lists[srv]]) {
      LinkLists(track, head, next, lists, n, srv, s);
    }
  }

  // ---- The directives ----

  ghost predicate Tracked(P: set<Server>, chains: Chains, lists: map<Server, seq<Server>>)
    reads P
  {
    && Acyclic(TrackOf(P), chains) && Listed(TrackOf(P), HeadOf(P), NextOf(P), lists)
    && forall s :: s in P && s.trackit.Some? ==> s.track == null
  }

  /** Where the last slash of a name is. */
  function LastSlash(name: string): (k: Option<nat>)
    ensures k.None? ==> '/' !in name
    ensures k.Some? ==> k.value < |name| && name[k.value] == '/' && '/' !in name[k.value + 1..]
  {
    if name == [] then None
    else if name[|name| - 1] == '/' then Some(|name| - 1)
    else
      var k := LastSlash(name[..|name| - 1]);
      assert k.Some? ==> name[k.value + 1..] == name[..|name| - 1][k.value + 1..] + [name[|name| - 1]];
      k
  }

  datatype Outcome = Followed | NoProxy | NoServer | NotChecked | Looping | Inconsistent

  /** The server that a name means to a server of the backend own, with its backend. */
  datatype Found = Found(srv: Server, proxy: nat) | Unknown(why: Outcome)

  function Find(cfg: Config, own: nat, name: string): Found
  {
    var k := LastSlash(name);
    var sname := if k.Some? then name[k.value + 1..] else name;
    if k.Some? && name[..k.value] !in cfg.names then Unknown(NoProxy)
    else
      var px := if k.Some? then cfg.names[name[..k.value]] else own;
      if px >= |cfg.proxies| then Unknown(NoProxy)
      else if sname !in cfg.proxies[px].servers then Unknown(NoServer)
      else Found(cfg.proxies[px].servers[sname], px)
  }

  lemma {:induction false} SlashAt(a: string, b: string)
    requires '/' !in b
    ensures LastSlash(a + "/" + b) == Some(|a|)
    decreases |b|
  {
    var s := a + "/" + b;
    if b == [] {
      assert s[|s| - 1] == '/';
    } else {
      assert b[|b| - 1] in b && s[|s| - 1] == b[|b| - 1];
      assert s[..|s| - 1] == a + "/" + b[..|b| - 1];
      SlashAt(a, b[..|b| - 1]);
    }
  }

  /** A name alone means a server of the same backend, and behind the name of a backend and a slash one of
      that backend. */
  lemma NameMeans(cfg: Config, own: nat, pname: string, sname: string)
    requires '/' !in sname && own < |cfg.proxies| && forall p :: p in cfg.names ==> cfg.names[p] < |cfg.proxies|
    ensures var servers := cfg.proxies[own].servers;
      Find(cfg, own, sname) == if sname in servers then Found(servers[sname], own) else Unknown(NoServer)
    ensures Find(cfg, own, pname + "/" + sname) ==
      if pname !in cfg.names then Unknown(NoProxy) else Find(cfg, cfg.names[pname], sname)
  {
    var name := pname + "/" + sname;
    SlashAt(pname, sname);
    assert name[..|pname|] == pname && name[|pname| + 1..] == sname;
    assert forall i :: 0 <= i < |sname| ==> sname[i] in sname;
  }

  ghost predicate Known(cfg: Config, P: set<Server>)
  {
    && (forall s :: s in P ==> s.proxy < |cfg.proxies|)
    && forall i, name :: 0 <= i < |cfg.proxies| && name in cfg.proxies[i].servers ==> cfg.proxies[i].servers[name] in P
  }

  /** Follows the tracking chain from srv until it ends or comes to newsrv. */
  method FollowChain(srv: Server, newsrv: Server, ghost P: set<Server>, ghost track: Links, ghost chains: Chains)
    returns (loop: Server?)
    requires srv in P && newsrv in P && track == TrackOf(P) && Acyclic(track, chains)
    ensures loop == if newsrv in chains[srv] then newsrv else null
  {
    loop := srv.track;
    ghost var rest := chains[srv];
    assert track[srv] == srv.track && ChainOf(srv, track, chains);
    while loop != null && loop != newsrv
      invariant loop != null ==> loop in P && rest == [loop] + chains[loop]
      invariant loop == null ==> rest == []
      invariant newsrv in chains[srv] <==> newsrv in rest
      decreases |rest|
    {
      assert track[loop] == loop.track && ChainOf(loop, track, chains);
      rest := chains[loop];
      loop := loop.track;
    }
  }

  method SetLinks(newsrv: Server, srv: Server, ghost P: set<Server>)
    requires srv in P && newsrv in P
    modifies newsrv`track, newsrv`tracknext, newsrv`trackit, srv`trackers
    ensures TrackOf(P) == old(TrackOf(P))[newsrv := srv]
    ensures NextOf(P) == old(NextOf(P))[newsrv := old(HeadOf(P))[srv]]
    ensures HeadOf(P) == old(HeadOf(P))[srv := newsrv]
    ensures DirectivesOf(P) == old(DirectivesOf(P))[newsrv := None]
  {
    newsrv.track := srv;
    newsrv.tracknext := srv.trackers;
    srv.trackers := newsrv;
    newsrv.trackit := None;
  }

  /** Adds newsrv to the list of those that track srv. */
  method Link(newsrv: Server, srv: Server, ghost P: set<Server>, ghost track: Links, ghost chains: Chains,
      ghost lists: map<Server, seq<Server>>)
    requires srv in P && newsrv in P && track == TrackOf(P) && Tracked(P, chains, lists) && track[newsrv] == null
    requires newsrv != srv && newsrv !in chains[srv]
    modifies newsrv`track, newsrv`tracknext, newsrv`trackit, srv`trackers
    ensures TrackOf(P) == track[newsrv := srv] && DirectivesOf(P) == old(DirectivesOf(P))[newsrv := None]
    ensures Tracked(P, Longer(chains, newsrv, srv), Listing(lists, newsrv, srv))
  {
    LinkAcyclic(track, chains, newsrv, srv);
    LinkListed(track, HeadOf(P), NextOf(P), lists, newsrv, srv);
    SetLinks(newsrv, srv, P);
  }

  /** The state of a server can be tracked: it has a check or an agent, or tracks another one or is to do so. */
  ghost predicate HasState(srv: Server, names: Directives, track: Links)
  {
    srv.configured || (srv in track && track[srv] != null) || (srv in names && names[srv].Some?)
  }

  /** Servers of the two backends can track each other. */
  predicate Consistent(cfg: Config, a: nat, b: nat)
    requires a < |cfg.proxies| && b < |cfg.proxies|
  {
    a == b || cfg.proxies[a].disable404 == cfg.proxies[b].disable404
  }

  /** What becomes of a directive of newsrv, once the server is found: refused if that one has no state, else if
      tracking it would make a cycle, else if the backends differ in their options, and else followed. */
  ghost predicate Judged(r: Outcome, newsrv: Server, srv: Server, px: nat, cfg: Config, names: Directives,
      track: Links, chains: Chains)
    requires srv in chains && newsrv.proxy < |cfg.proxies| && px < |cfg.proxies|
  {
    var loops := newsrv == srv || newsrv in chains[srv];
    && (r == NotChecked <==> !HasState(srv, names, track))
    && (r == Looping <==> HasState(srv, names, track) && loops)
    && (r == Inconsistent <==> HasState(srv, names, track) && !loops && !Consistent(cfg, newsrv.proxy, px))
    && (r == Followed <==> HasState(srv, names, track) && !loops && Consistent(cfg, newsrv.proxy, px))
  }

  /** The tests on the server found: whether the directive is followed, and why not. */
  method Check(newsrv: Server, cfg: Config, srv: Server, px: nat, ghost P: set<Server>, ghost track: Links,
      ghost chains: Chains) returns (r: Outcome)
    requires newsrv in P && srv in P && newsrv.proxy < |cfg.proxies| && px < |cfg.proxies| && track == TrackOf(P)
      && Acyclic(track, chains)
    ensures Judged(r, newsrv, srv, px, cfg, DirectivesOf(P), track, chains)
  {
    assert HasState(srv, DirectivesOf(P), track) <==> srv.configured || srv.track != null || srv.trackit.Some?;
    if !srv.configured && srv.track == null && srv.trackit == None { return NotChecked; }
    var loop := FollowChain(srv, newsrv, P, track, chains);
    if newsrv == srv || loop != null { return Looping; }
    if newsrv.proxy != px && cfg.proxies[newsrv.proxy].disable404 != cfg.proxies[px].disable404 { return Inconsistent; }
    return Followed;
  }

  /** n has a directive, and r is what becomes of it. */
  ghost predicate Turn(n: Server, cfg: Config, names: Directives, track: Links, chains: Chains, r: Outcome)
    requires names.Keys == track.Keys == chains.Keys && forall s :: s in track ==> s.proxy < |cfg.proxies|
  {
    && n in track && names[n].Some? && track[n] == null
    && match Find(cfg, n.proxy, names[n].value)
       case Unknown(why) => r == why
       case Found(srv, px) => srv in track && px < |cfg.proxies| && Judged(r, n, srv, px, cfg, names, track, chains)
  }

  /** n comes first in the list of srv. */
  ghost function Listing(lists: map<Server, seq<Server>>, n: Server, srv: Server): map<Server, seq<Server>>
  {
    lists[srv := [n] + if srv in lists then lists[srv] else []]
  }

  ghost function NamesAfter(names: Directives, n: Server, r: Outcome): Directives
  {
    if r == Followed then names[n := None] else names
  }

  ghost function TrackAfter(cfg: Config, names: Directives, track: Links, n: Server, r: Outcome): Links
    requires n in names && names[n].Some?
    requires r == Followed ==> Find(cfg, n.proxy, names[n].value).Found?
  {
    if r == Followed then track[n := Find(cfg, n.proxy, names[n].value).srv] else track
  }

  /** The end of the resolution, once the server is found. */
  method Track(newsrv: Server, cfg: Config, srv: Server, px: nat, ghost P: set<Server>, ghost names: Directives,
      ghost track: Links, ghost chains: Chains, ghost lists: map<Server, seq<Server>>)
    returns (r: Outcome, ghost chains': Chains, ghost lists': map<Server, seq<Server>>)
    requires newsrv in P && srv in P && newsrv.proxy < |cfg.proxies| && px < |cfg.proxies| && Tracked(P, chains, lists)
    requires names == DirectivesOf(P) && track == TrackOf(P) && track[newsrv] == null
    modifies P`track, P`tracknext, P`trackit, P`trackers
    ensures Tracked(P, chains', lists') && Judged(r, newsrv, srv, px, cfg, names, track, chains)
    ensures r != Followed ==> DirectivesOf(P) == names && TrackOf(P) == track && lists' == lists
    ensures r == Followed ==> DirectivesOf(P) == names[newsrv := None] && TrackOf(P) == track[newsrv := srv]
    ensures r == Followed ==> lists' == Listing(lists, newsrv, srv)
  {
    chains', lists' := chains, lists;
    r := Check(newsrv, cfg, srv, px, P, track, chains);
    if r == Followed {
      Link(newsrv, srv, P, track, chains, lists);
      chains', lists' := Longer(chains, newsrv, srv), Listing(lists, newsrv, srv);
    }
  }

  /** The resolution of one directive: what becomes of it, and that nothing changes unless it is followed. */
  method Resolve(newsrv: Server, cfg: Config, ghost P: set<Server>, ghost names: Directives, ghost track: Links,
      ghost chains: Chains, ghost lists: map<Server, seq<Server>>)
    returns (r: Outcome, ghost chains': Chains, ghost lists': map<Server, seq<Server>>)
    requires newsrv in P && newsrv.trackit.Some? && Known(cfg, P) && Tracked(P, chains, lists)
    requires names == DirectivesOf(P) && track == TrackOf(P)
    modifies P`track, P`tracknext, P`trackit, P`trackers
    ensures Tracked(P, chains', lists') && Turn(newsrv, cfg, names, track, chains, r)
    ensures r == Followed ==> Find(cfg, newsrv.proxy, names[newsrv].value).Found?
    ensures DirectivesOf(P) == NamesAfter(names, newsrv, r) && TrackOf(P) == TrackAfter(cfg, names, track, newsrv, r)
    ensures r != Followed ==> lists' == lists
    ensures r == Followed ==> lists' == Listing(lists, newsrv, Find(cfg, newsrv.proxy, names[newsrv].value).srv)
  {
    assert names[newsrv] == newsrv.trackit && track[newsrv] == newsrv.track;
    var found := Find(cfg, newsrv.proxy, newsrv.trackit.value);
    if found.Unknown? { return found.why, chains, lists; }
    r, chains', lists' := Track(newsrv, cfg, found.srv, found.proxy, P, names, track, chains, lists);
  }

  // ---- All directives ----

  /** The directive of s can be followed, but for cycles. */
  ghost predicate RightOne(s: Server, cfg: Config, names: Directives, track: Links)
    requires s in names && s.proxy < |cfg.proxies|
  {
    names[s].Some? &&
    var f := Find(cfg, s.proxy, names[s].value);
    && f.Found? && f.srv in track && f.proxy < |cfg.proxies|
    && HasState(f.srv, names, track) && Consistent(cfg, s.proxy, f.proxy)
  }

  /** The links that the directives of the servers ask for, on top of those that are there. */
  ghost function Wanted(servers: seq<Server>, cfg: Config, names: Directives, track: Links): (m: Links)
    requires names.Keys == track.Keys
    ensures m.Keys == track.Keys
  {
    map s | s in track ::
      if s in servers && names[s].Some? && Find(cfg, s.proxy, names[s].value).Found?
      then Find(cfg, s.proxy, names[s].value).srv else track[s]
  }

  /** Each directive can be followed, but for cycles. */
  ghost predicate AllRight(servers: seq<Server>, cfg: Config, names: Directives, track: Links)
    requires forall s :: s in servers ==> s in names && s.proxy < |cfg.proxies|
  {
    forall s :: s in servers && names[s].Some? ==> RightOne(s, cfg, names, track)
  }

  /** Of the directives of names0 some have been followed, and the others are as they were. */
  ghost predicate Underway(servers: seq<Server>, cfg: Config, names0: Directives, track0: Links, names: Directives,
      track: Links)
    requires names0.Keys == track0.Keys && forall s :: s in track0 ==> s.proxy < |cfg.proxies|
  {
    && names.Keys == track.Keys == track0.Keys
    && forall s :: s in track0 ==>
      || (names[s] == names0[s] && track[s] == track0[s])
      || (s in servers && RightOne(s, cfg, names0, track0) && names[s] == None
          && track[s] == Find(cfg, s.proxy, names0[s].value).srv)
  }

  /** One server has a state now just if it had one before any directive was followed. */
  lemma StateStays(servers: seq<Server>, cfg: Config, names0: Directives, track0: Links, names: Directives,
      track: Links, srv: Server)
    requires names0.Keys == track0.Keys && (forall s :: s in track0 ==> s.proxy < |cfg.proxies|) && srv in track0
    requires Underway(servers, cfg, names0, track0, names, track)
    ensures HasState(srv, names, track) <==> HasState(srv, names0, track0)
  {
  }

  /** The directives before, and those now. */
  ghost predicate Since(servers: seq<Server>, cfg: Config, names0: Directives, track0: Links, names: Directives,
      track: Links, chains: Chains)
  {
    && names0.Keys == track0.Keys && (forall s :: s in track0 ==> s.proxy < |cfg.proxies|)
    && (forall s :: s in track0 && names0[s].Some? ==> track0[s] == null)
    && Underway(servers, cfg, names0, track0, names, track) && Acyclic(track, chains)
  }

  lemma FollowedOne(servers: seq<Server>, cfg: Config, names0: Directives, track0: Links, names: Directives,
      track: Links, chains: Chains, n: Server)
    requires Since(servers, cfg, names0, track0, names, track, chains) && n in servers
    requires Turn(n, cfg, names, track, chains, Followed) && Find(cfg, n.proxy, names[n].value).Found?
    ensures RightOne(n, cfg, names0, track0)
    ensures Underway(servers, cfg, names0, track0, NamesAfter(names, n, Followed),
      TrackAfter(cfg, names, track, n, Followed))
  {
    assert names[n] == names0[n];
    StateStays(servers, cfg, names0, track0, names, track, Find(cfg, n.proxy, names[n].value).srv);
  }

  /** A directive that is right but for cycles is refused only if the links asked for make one. */
  lemma RefusedOne(servers: seq<Server>, cfg: Config, names0: Directives, track0: Links, names: Directives,
      track: Links, chains: Chains, n: Server, r: Outcome) returns (p: seq<Server>)
    requires Since(servers, cfg, names0, track0, names, track, chains) && n in servers
    requires Turn(n, cfg, names, track, chains, r) && r != Followed
    requires RightOne(n, cfg, names0, track0)
    ensures Leads(Wanted(servers, cfg, names0, track0), n, p, n)
  {
    StillThere(servers, cfg, names0, track0, names, track, n);
    var srv, all := Find(cfg, n.proxy, names[n].value).srv, Wanted(servers, cfg, names0, track0);
    StateStays(servers, cfg, names0, track0, names, track, srv);
    assert r == Looping && all[n] == srv;
    PartOfWanted(servers, cfg, names0, track0, names, track);
    p := LinkLeads(track, chains, all, n, srv);
  }

  lemma StillThere(servers: seq<Server>, cfg: Config, names0: Directives, track0: Links, names: Directives,
      track: Links, n: Server)
    requires names0.Keys == track0.Keys && (forall s :: s in track0 ==> s.proxy < |cfg.proxies|)
    requires Underway(servers, cfg, names0, track0, names, track) && n in track0 && names[n].Some?
    ensures names[n] == names0[n] && track[n] == track0[n]
  {
  }

  lemma PartOfWanted(servers: seq<Server>, cfg: Config, names0: Directives, track0: Links, names: Directives,
      track: Links)
    requires names0.Keys == track0.Keys && (forall s :: s in track0 ==> s.proxy < |cfg.proxies|)
    requires Underway(servers, cfg, names0, track0, names, track)
    requires forall s :: s in track0 && names0[s].Some? ==> track0[s] == null
    ensures var all := Wanted(servers, cfg, names0, track0);
      forall s :: s in track && track[s] != null ==> all[s] == track[s]
  {
  }

  /** The directive of one of the servers. */
  method ResolveOne(n: Server, servers: seq<Server>, cfg: Config, ghost P: set<Server>, ghost names0: Directives,
      ghost track0: Links, ghost chains: Chains, ghost lists: map<Server, seq<Server>>)
    returns (ok: bool, ghost chains': Chains, ghost lists': map<Server, seq<Server>>, ghost p: seq<Server>)
    requires n in servers && (forall s :: s in servers ==> s in P) && Known(cfg, P) && Tracked(P, chains, lists)
    requires n.trackit.Some? && names0.Keys == P
    requires Since(servers, cfg, names0, track0, DirectivesOf(P), TrackOf(P), chains)
    modifies P`track, P`tracknext, P`trackit, P`trackers
    ensures Tracked(P, chains', lists')
    ensures Underway(servers, cfg, names0, track0, DirectivesOf(P), TrackOf(P))
    ensures DirectivesOf(P) == if ok then old(DirectivesOf(P))[n := None] else old(DirectivesOf(P))
    ensures !ok ==> !RightOne(n, cfg, names0, track0) || Leads(Wanted(servers, cfg, names0, track0), n, p, n)
  {
    ghost var names, track := DirectivesOf(P), TrackOf(P);
    p := [];
    var r;
    r, chains', lists' := Resolve(n, cfg, P, names, track, chains, lists);
    ok := r == Followed;
    if ok {
      FollowedOne(servers, cfg, names0, track0, names, track, chains, n);
    } else if RightOne(n, cfg, names0, track0) {
      p := RefusedOne(servers, cfg, names0, track0, names, track, chains, n, r);
    }
  }

  /** One server, with or without a directive. */
  method ResolveNext(n: Server, servers: seq<Server>, cfg: Config, ghost P: set<Server>, ghost names0: Directives,
      ghost track0: Links, ghost chains: Chains, ghost lists: map<Server, seq<Server>>)
    returns (ok: bool, ghost chains': Chains, ghost lists': map<Server, seq<Server>>, ghost p: seq<Server>)
    requires n in servers && (forall s :: s in servers ==> s in P) && Known(cfg, P) && Tracked(P, chains, lists)
    requires names0.Keys == P && Since(servers, cfg, names0, track0, DirectivesOf(P), TrackOf(P), chains)
    modifies P`track, P`tracknext, P`trackit, P`trackers
    ensures Tracked(P, chains', lists')
    ensures Underway(servers, cfg, names0, track0, DirectivesOf(P), TrackOf(P))
    ensures DirectivesOf(P) == if ok then old(DirectivesOf(P))[n := None] else old(DirectivesOf(P))
    ensures !ok ==> !RightOne(n, cfg, names0, track0) || Leads(Wanted(servers, cfg, names0, track0), n, p, n)
    ensures !ok ==> names0[n].Some?
  {
    ghost var names := DirectivesOf(P);
    ok, chains', lists', p := true, chains, lists, [];
    assert names[n] == n.trackit;
    if n.trackit == None {
      assert names[n := None] == names;
    } else {
      StillThere(servers, cfg, names0, track0, names, TrackOf(P), n);
      ok, chains', lists', p := ResolveOne(n, servers, cfg, P, names0, track0, chains, lists);
    }
  }

  /** With no directive left, all have been followed. */
  lemma NoneLeft(servers: seq<Server>, cfg: Config, names0: Directives, track0: Links, names: Directives, track: Links,
      chains: Chains)
    requires Since(servers, cfg, names0, track0, names, track, chains)
    requires (forall s :: s in servers ==> s in track0) && NoneOf(servers, |servers|, names)
    ensures AllRight(servers, cfg, names0, track0) && track == Wanted(servers, cfg, names0, track0)
  {
    forall s | s in servers ensures names[s] == None {
      var i :| 0 <= i < |servers| && servers[i] == s;
    }
  }

  ghost predicate NoneOf(servers: seq<Server>, i: nat, names: Directives)
  {
    forall j :: 0 <= j < i && j < |servers| ==> servers[j] in names && names[servers[j]] == None
  }

  lemma NoneOfStep(servers: seq<Server>, i: nat, names: Directives, names': Directives)
    requires i < |servers| && NoneOf(servers, i, names) && names' == names[servers[i] := None]
    ensures NoneOf(servers, i + 1, names')
  {
  }

  /** The directive of s is wrong, or the links asked for lead from s over its path back to s. */
  ghost predicate Refusable(servers: seq<Server>, cfg: Config, names: Directives, track: Links, s: Server,
      paths: map<Server, seq<Server>>)
    requires names.Keys == track.Keys && s in names && s.proxy < |cfg.proxies|
  {
    RightOne(s, cfg, names, track) ==> s in paths && Leads(Wanted(servers, cfg, names, track), s, paths[s], s)
  }

  /** Of the first i servers only those have a directive left that may be refused. */
  ghost predicate LeftUpTo(servers: seq<Server>, i: nat, cfg: Config, names0: Directives, track0: Links,
      names: Directives, paths: map<Server, seq<Server>>)
    requires names0.Keys == track0.Keys && forall s :: s in track0 ==> s.proxy < |cfg.proxies|
  {
    forall j :: 0 <= j < i && j < |servers| ==>
      && servers[j] in names0 && servers[j] in names
      && (names[servers[j]].Some? ==> Refusable(servers, cfg, names0, track0, servers[j], paths))
  }

  lemma LeftStep(servers: seq<Server>, i: nat, cfg: Config, names0: Directives, track0: Links, names: Directives,
      names': Directives, ok: bool, p: seq<Server>, paths: map<Server, seq<Server>>)
    requires names0.Keys == track0.Keys && forall s :: s in track0 ==> s.proxy < |cfg.proxies|
    requires i < |servers| && servers[i] in names0 && servers[i] in names
    requires LeftUpTo(servers, i, cfg, names0, track0, names, paths)
    requires names' == if ok then names[servers[i] := None] else names
    requires !ok && RightOne(servers[i], cfg, names0, track0) ==>
      Leads(Wanted(servers, cfg, names0, track0), servers[i], p, servers[i])
    ensures LeftUpTo(servers, i + 1, cfg, names0, track0, names', if ok then paths else paths[servers[i] := p])
  {
    var paths' := if ok then paths else paths[servers[i] := p];
    forall j | 0 <= j < i + 1
      ensures servers[j] in names' &&
        (names'[servers[j]].Some? ==> Refusable(servers, cfg, names0, track0, servers[j], paths'))
    {}
  }

  /** All directives, in whatever order the servers come. Each is followed, so that its server tracks the one that
      its name means, or left as it is, and then it is wrong or closes a cycle. There is no error if and only if all
      are followed, and that is so if and only if each of them is right and the links that they ask for together make
      no cycle: if there is one, it leads from c over its path back to c. */
  method ResolveAll(servers: seq<Server>, cfg: Config, ghost P: set<Server>, ghost chains: Chains,
      ghost lists: map<Server, seq<Server>>)
    returns (cfgerr: nat, ghost chains': Chains, ghost lists': map<Server, seq<Server>>, ghost c: Server?,
      ghost paths: map<Server, seq<Server>>)
    requires (forall s :: s in servers ==> s in P) && Known(cfg, P) && Tracked(P, chains, lists)
    modifies P`track, P`tracknext, P`trackit, P`trackers
    ensures Tracked(P, chains', lists')
    ensures Underway(servers, cfg, old(DirectivesOf(P)), old(TrackOf(P)), DirectivesOf(P), TrackOf(P))
    ensures LeftUpTo(servers, |servers|, cfg, old(DirectivesOf(P)), old(TrackOf(P)), DirectivesOf(P), paths)
    ensures cfgerr == 0 <==> NoneOf(servers, |servers|, DirectivesOf(P))
    ensures cfgerr == 0 ==>
      && AllRight(servers, cfg, old(DirectivesOf(P)), old(TrackOf(P)))
      && TrackOf(P) == Wanted(servers, cfg, old(DirectivesOf(P)), old(TrackOf(P)))
    ensures cfgerr > 0 && AllRight(servers, cfg, old(DirectivesOf(P)), old(TrackOf(P))) ==>
      c != null && c in paths && Leads(Wanted(servers, cfg, old(DirectivesOf(P)), old(TrackOf(P))), c, paths[c], c)
  {
    ghost var names0, track0 := DirectivesOf(P), TrackOf(P);
    ghost var all, right := Wanted(servers, cfg, names0, track0), AllRight(servers, cfg, names0, track0);
    cfgerr, chains', lists', c, paths := 0, chains, lists, null, map[];
    for i := 0 to |servers|
      invariant Tracked(P, chains', lists')
      invariant Underway(servers, cfg, names0, track0, DirectivesOf(P), TrackOf(P))
      invariant LeftUpTo(servers, i, cfg, names0, track0, DirectivesOf(P), paths)
      invariant cfgerr == 0 ==> NoneOf(servers, i, DirectivesOf(P))
      invariant cfgerr > 0 && right ==> c != null && c in paths && Leads(all, c, paths[c], c)
    {
      ghost var names := DirectivesOf(P);
      var ok;
      ghost var q;
      ok, chains', lists', q := ResolveNext(servers[i], servers, cfg, P, names0, track0, chains', lists');
      LeftStep(servers, i, cfg, names0, track0, names, DirectivesOf(P), ok, q, paths);
      if !ok {
        cfgerr := cfgerr + 1;
        c, paths := servers[i], paths[servers[i] := q];
      } else if cfgerr == 0 {
        NoneOfStep(servers, i, names, DirectivesOf(P));
      }
    }
    if NoneOf(servers, |servers|, DirectivesOf(P)) {
      NoneLeft(servers, cfg, names0, track0, DirectivesOf(P), TrackOf(P), chains');
      if cfgerr > 0 { CycleExcludes(all, chains', c, paths[c]); }
    }
  }

  lemma NoneOfAll(servers: seq<Server>, names: Directives)
    requires forall s :: s in servers <==> s in names
    ensures NoneOf(servers, |servers|, names) <==> forall s :: s in names ==> names[s] == None
  {
    forall s | s in names && NoneOf(servers, |servers|, names) ensures names[s] == None {
      var i :| 0 <= i < |servers| && servers[i] == s;
    }
  }

  lemma ParsedEnds(servers: seq<Server>, cfg: Config, names0: Directives, track0: Links, names: Directives,
      track: Links, s: Server)
    requires names0.Keys == track0.Keys && (forall s :: s in track0 ==> s.proxy < |cfg.proxies| && track0[s] == null)
    requires Underway(servers, cfg, names0, track0, names, track) && s in track
    ensures if names[s].Some? then names[s] == names0[s] && track[s] == null
      else if names0[s].None? then track[s] == null
      else Find(cfg, s.proxy, names0[s].value).Found? && track[s] == Find(cfg, s.proxy, names0[s].value).srv
  {
  }

  /** Before any directive is resolved nothing is tracked. */
  lemma NothingTracked(P: set<Server>)
    requires forall s :: s in P ==> s.track == s.trackers == s.tracknext == null
    ensures Tracked(P, map s | s in P :: [], map s | s in P :: [])
  {
  }

  /** The directives of a configuration that has just been parsed, in whatever order the servers come. */
  method ResolveParsed(servers: seq<Server>, cfg: Config, ghost P: set<Server>)
    returns (cfgerr: nat, ghost chains: Chains, ghost lists: map<Server, seq<Server>>, ghost c: Server?,
      ghost paths: map<Server, seq<Server>>)
    requires (forall s :: s in servers <==> s in P) && Known(cfg, P)
    requires forall s :: s in P ==> s.track == s.trackers == s.tracknext == null
    modifies P`track, P`tracknext, P`trackit, P`trackers
    ensures Tracked(P, chains, lists)
    ensures forall s :: s in P ==>
      if s.trackit.Some? then
        && s.trackit == old(s.trackit) && s.track == null
        && Refusable(servers, cfg, old(DirectivesOf(P)), old(TrackOf(P)), s, paths)
      else if old(s.trackit).None? then s.track == null
      else
        var f := Find(cfg, s.proxy, old(s.trackit).value);
        f.Found? && s.track == f.srv
    ensures cfgerr == 0 <==> forall s :: s in P ==> s.trackit == None
    ensures cfgerr == 0 ==> AllRight(servers, cfg, old(DirectivesOf(P)), old(TrackOf(P)))
    ensures cfgerr > 0 && AllRight(servers, cfg, old(DirectivesOf(P)), old(TrackOf(P))) ==>
      c != null && c in paths && Leads(Wanted(servers, cfg, old(DirectivesOf(P)), old(TrackOf(P))), c, paths[c], c)
  {
    NothingTracked(P);
    ghost var names0, track0 := DirectivesOf(P), TrackOf(P);
    cfgerr, chains, lists, c, paths := ResolveAll(servers, cfg, P, map s | s in P :: [], map s | s in P :: []);
    ghost var names: Directives, track: Links := DirectivesOf(P), TrackOf(P);
    NoneOfAll(servers, names);
    forall s | s in P
      ensures names[s] == s.trackit && track[s] == s.track && names0[s] == old(s.trackit)
      ensures if names[s].Some? then
          names[s] == names0[s] && track[s] == null && Refusable(servers, cfg, names0, track0, s, paths)
        else if names0[s].None? then track[s] == null
        else Find(cfg, s.proxy, names0[s].value).Found? && track[s] == Find(cfg, s.proxy, names0[s].value).srv
    {
      ParsedEnds(servers, cfg, names0, track0, names, track, s);
      var i :| 0 <= i < |servers| && servers[i] == s;
    }
    assert (forall s :: s in names ==> names[s] == None) <==> forall s :: s in P ==> s.trackit == None;
  }
}
