/** All hosts of a fixed topology exchanging advertisements that are lost, repeated and reordered:
    every route leads to its destination without a loop, every cost is the length of a path, and
    enough rounds of advertisements make every cost the distance. */
module RoutingProtocol {
  import opened Routing

  type Links = set<(nat, nat)>

  /** Links join hosts and run both ways. */
  ghost predicate IsTopology(links: Links) {
    forall u, v | (u, v) in links :: IsHost(u) && IsHost(v) && (v, u) in links
  }

  function NeighborsOf(links: Links, me: nat): set<nat> {
    set l | l in links && l.0 == me :: l.1
  }

  /** The tables of all hosts, and the hosts that have entered their neighbours. */
  datatype Hosts = Hosts(tables: seq<seq<Route>>, started: set<nat>)

  /** The hosts and every advertisement ever sent. */
  datatype Network = Network(hosts: Hosts, net: set<Advert>)

  datatype Action =
    | Start(host: nat)
    | Send(host: nat, to: nat, dest: nat)
    | Deliver(advert: Advert)

  predicate AreTables(s: Hosts) {
    |s.tables| == MAX_HOSTS && forall i | 0 <= i < MAX_HOSTS :: IsTable(s.tables[i])
  }

  function Table(s: Hosts, host: nat): (r: seq<Route>)
    requires AreTables(s) && IsHost(host)
    ensures IsTable(r)
  {
    s.tables[host - 1]
  }

  function Cost(s: Hosts, host: nat, dest: nat): nat
    requires AreTables(s) && IsHost(host) && IsHost(dest)
  {
    Table(s, host)[dest - 1].cost
  }

  function Gateway(s: Hosts, host: nat, dest: nat): nat
    requires AreTables(s) && IsHost(host) && IsHost(dest)
  {
    Table(s, host)[dest - 1].gateway
  }

  function Initial(): Network {
    var empty := seq(MAX_HOSTS, i => NO_ROUTE);
    Network(Hosts(seq(MAX_HOSTS, i => empty), {}), {})
  }

  /** A host learns routes from the moment it exists, but enters its neighbours a little later,
      and advertises only after that. */
  predicate Enabled(links: Links, s: Network, a: Action) {
    && AreTables(s.hosts)
    && match a
       case Start(host) => IsHost(host) && host !in s.hosts.started
       case Send(host, to, dest) =>
         && host in s.hosts.started && IsHost(host) && IsHost(dest) && (host, to) in links
         && Cost(s.hosts, host, dest) != 0
       case Deliver(advert) => advert in s.net && IsHost(advert.to) && IsHost(advert.dest)
  }

  function WithTable(s: Hosts, host: nat, table: seq<Route>): (r: Hosts)
    requires AreTables(s) && IsHost(host) && IsTable(table)
    ensures AreTables(r)
  {
    s.(tables := s.tables[host - 1 := table])
  }

  function AfterStart(links: Links, s: Hosts, host: nat): (r: Hosts)
    requires AreTables(s) && IsHost(host)
    ensures AreTables(r)
  {
    WithTable(s, host, Started(Table(s, host), host, NeighborsOf(links, host))).(started := s.started + {host})
  }

  function AfterDeliver(s: Hosts, a: Advert): (r: Hosts)
    requires AreTables(s) && IsHost(a.to) && IsHost(a.dest)
    ensures AreTables(r)
  {
    WithTable(s, a.to, Learned(Table(s, a.to), a))
  }

  function Apply(links: Links, s: Network, a: Action): (r: Network)
    requires Enabled(links, s, a)
    ensures AreTables(r.hosts)
  {
    match a
    case Start(host) => s.(hosts := AfterStart(links, s.hosts, host))
    case Send(host, to, dest) =>
      s.(net := s.net + {Advertised(Table(s.hosts, host), host, to, dest)})
    case Deliver(advert) => s.(hosts := AfterDeliver(s.hosts, advert))
  }

  // ---- Paths ----

  predicate IsWalk(links: Links, p: seq<nat>, from: nat, to: nat) {
    && p != [] && p[0] == from && p[|p| - 1] == to
    && (forall i | 0 <= i < |p| :: IsHost(p[i]))
    && (forall i | 0 <= i < |p| - 1 :: Linked(links, p, i))
  }

  predicate Linked(links: Links, p: seq<nat>, i: nat)
    requires i + 1 < |p|
  {
    (p[i], p[i + 1]) in links
  }

  predicate Distinct(p: seq<nat>) {
    forall i, j | 0 <= i < j < |p| :: p[i] != p[j]
  }

  /** A simple path along which the costs to its end fall at least as fast as the distance. */
  predicate IsRoute(links: Links, s: Hosts, p: seq<nat>, from: nat, to: nat, length: nat)
    requires AreTables(s)
  {
    && |p| == length + 1 && IsWalk(links, p, from, to) && Distinct(p)
    && forall i | 1 <= i < length :: Falls(s, p, i, to, length)
  }

  predicate Falls(s: Hosts, p: seq<nat>, i: nat, to: nat, length: nat)
    requires AreTables(s) && i < |p| && IsHost(p[i]) && i <= length
  {
    p[i] in s.started && IsHost(to) && 1 <= Cost(s, p[i], to) <= length - i
  }

  ghost predicate HasRoute(links: Links, s: Hosts, from: nat, to: nat, length: nat)
    requires AreTables(s)
  {
    exists p :: IsRoute(links, s, p, from, to, length)
  }

  // ---- The invariant ----

  /** The gateway of an entry is the host itself, for itself and its neighbours, or a neighbour
      that is strictly closer to the destination by its own table. */
  predicate EntryOk(links: Links, s: Hosts, host: nat, dest: nat)
    requires AreTables(s) && IsHost(host) && IsHost(dest)
  {
    var cost, g := Cost(s, host, dest), Gateway(s, host, dest);
    && (cost == 0 ==> g == 0)
    && (cost == 1 ==> host in s.started && g == host && (dest == host || (host, dest) in links))
    && (cost >= 2 ==>
          && (host, g) in links && IsHost(g) && g in s.started && g != host
          && 1 <= Cost(s, g, dest) < cost)
    && (host in s.started && (dest == host || (host, dest) in links) ==> cost == 1)
  }

  /** A known cost is the length of a route, except that a host which has not entered a neighbour
      yet may have heard of it from that neighbour at cost 2. */
  ghost predicate CostOk(links: Links, s: Hosts, host: nat, dest: nat)
    requires AreTables(s) && IsHost(host) && IsHost(dest)
  {
    host != dest && Cost(s, host, dest) != 0 ==>
      || HasRoute(links, s, host, dest, Cost(s, host, dest))
      || (host !in s.started && (host, dest) in links && Cost(s, host, dest) == 2)
  }

  ghost predicate AdvertOk(links: Links, s: Hosts, a: Advert)
    requires AreTables(s)
  {
    && IsHost(a.to) && IsHost(a.dest) && IsHost(a.gateway)
    && (a.gateway, a.to) in links && a.gateway in s.started
    && 1 <= Cost(s, a.gateway, a.dest) < a.cost
    && (if a.gateway == a.dest then a.cost == 2
        else HasRoute(links, s, a.gateway, a.dest, a.cost - 1))
  }

  ghost predicate TablesOk(links: Links, s: Hosts) {
    && IsTopology(links) && AreTables(s)
    && (forall host, dest {:trigger EntryOk(links, s, host, dest)} | IsHost(host) && IsHost(dest) ::
          EntryOk(links, s, host, dest))
    && (forall host, dest {:trigger CostOk(links, s, host, dest)} | IsHost(host) && IsHost(dest) ::
          CostOk(links, s, host, dest))
  }

  ghost predicate Inv(links: Links, s: Network) {
    && TablesOk(links, s.hosts)
    && forall a | a in s.net :: AdvertOk(links, s.hosts, a)
  }

  /** Costs never rise and known hosts stay known. */
  ghost predicate Better(s: Hosts, t: Hosts)
    requires AreTables(s) && AreTables(t)
  {
    && s.started <= t.started
    && forall host, dest | IsHost(host) && IsHost(dest) && Cost(s, host, dest) != 0 ::
         1 <= Cost(t, host, dest) <= Cost(s, host, dest)
  }

  lemma RouteStays(links: Links, s: Hosts, t: Hosts, from: nat, to: nat, length: nat)
    requires AreTables(s) && AreTables(t) && Better(s, t) && HasRoute(links, s, from, to, length)
    ensures HasRoute(links, t, from, to, length)
  {
    var p :| IsRoute(links, s, p, from, to, length);
    forall i | 1 <= i < length ensures Falls(t, p, i, to, length) {
      assert Falls(s, p, i, to, length);
    }
    assert IsRoute(links, t, p, from, to, length);
  }

  lemma AdvertStays(links: Links, s: Hosts, t: Hosts, a: Advert)
    requires AreTables(s) && AreTables(t) && Better(s, t) && AdvertOk(links, s, a)
    ensures AdvertOk(links, t, a)
  {
    if a.gateway != a.dest {
      RouteStays(links, s, t, a.gateway, a.dest, a.cost - 1);
    }
  }

  /** A host can be put in front of a route it does not lie on. */
  lemma RouteExtends(links: Links, s: Hosts, host: nat, g: nat, dest: nat, length: nat, p: seq<nat>)
    requires AreTables(s) && IsHost(host) && (host, g) in links && g in s.started && g != dest
    requires IsRoute(links, s, p, g, dest, length) && host !in p
    requires IsHost(g) && IsHost(dest) && 1 <= Cost(s, g, dest) <= length
    ensures HasRoute(links, s, host, dest, length + 1)
  {
    var q := [host] + p;
    forall i | 0 <= i < |q| - 1 ensures Linked(links, q, i) {
      if i > 0 { assert Linked(links, p, i - 1); }
    }
    var more := length + 1;
    forall i | 1 <= i < more ensures Falls(s, q, i, dest, more) {
      if i > 1 { assert Falls(s, p, i - 1, dest, length); }
    }
    assert IsRoute(links, s, q, host, dest, length + 1);
  }

  lemma {:induction false} DistinctHostsAreFew(p: seq<nat>, hosts: set<nat>)
    requires Distinct(p) && forall i | 0 <= i < |p| :: p[i] in hosts
    ensures |p| <= |hosts|
  {
    if p != [] {
      var last := p[|p| - 1];
      DistinctHostsAreFew(p[..|p| - 1], hosts - {last});
    }
  }

  lemma RouteIsShort(links: Links, s: Hosts, from: nat, to: nat, length: nat)
    requires AreTables(s) && HasRoute(links, s, from, to, length)
    ensures length < MAX_HOSTS
  {
    var p :| IsRoute(links, s, p, from, to, length);
    DistinctHostsAreFew(p, {1, 2, 3, 4, 5, 6});
  }

  // ---- Steps ----

  lemma InitialHolds(links: Links)
    requires IsTopology(links)
    ensures Inv(links, Initial())
  {
  }

  /** The 8-bit increment never wraps: every cost is below the number of hosts. */
  lemma AdvertisedOk(links: Links, s: Hosts, host: nat, to: nat, dest: nat)
    requires TablesOk(links, s) && (host, to) in links && host in s.started
    requires IsHost(host) && IsHost(dest) && Cost(s, host, dest) != 0
    ensures AdvertOk(links, s, Advertised(Table(s, host), host, to, dest))
  {
    assert EntryOk(links, s, host, dest);
    if host != dest {
      CostIsSmall(links, s, host, dest);
      assert CostOk(links, s, host, dest);
    }
  }

  lemma SendKeeps(links: Links, s: Network, host: nat, to: nat, dest: nat)
    requires Inv(links, s) && Enabled(links, s, Send(host, to, dest))
    ensures Inv(links, Apply(links, s, Send(host, to, dest)))
  {
    AdvertisedOk(links, s.hosts, host, to, dest);
  }

  /** Learning from an advertisement that improves: the new route is a simple path, because every
      host on the advertised one already has a lower cost. */
  lemma LearnedPath(links: Links, s: Hosts, a: Advert)
    requires AreTables(s) && AdvertOk(links, s, a) && Improves(Table(s, a.to), a)
    requires (a.to, a.gateway) in links && a.to != a.dest && a.gateway != a.dest
    ensures HasRoute(links, s, a.to, a.dest, a.cost)
  {
    var p :| IsRoute(links, s, p, a.gateway, a.dest, a.cost - 1);
    OffTheRoute(links, s, a, p);
    RouteExtends(links, s, a.to, a.gateway, a.dest, a.cost - 1, p);
  }

  lemma LearnedHasRoute(links: Links, s: Hosts, a: Advert)
    requires TablesOk(links, s) && AdvertOk(links, s, a) && Improves(Table(s, a.to), a)
    ensures a.gateway != a.to
    ensures a.to != a.dest ==>
              || HasRoute(links, s, a.to, a.dest, a.cost)
              || (a.to !in s.started && (a.to, a.dest) in links && a.cost == 2)
  {
    assert (a.to, a.gateway) in links;
    assert EntryOk(links, s, a.to, a.dest);
    if a.to != a.dest && a.gateway != a.dest {
      LearnedPath(links, s, a);
    }
  }

  lemma OffTheRoute(links: Links, s: Hosts, a: Advert, p: seq<nat>)
    requires AreTables(s) && AdvertOk(links, s, a) && Improves(Table(s, a.to), a) && a.to != a.dest
    requires IsRoute(links, s, p, a.gateway, a.dest, a.cost - 1)
    ensures a.to !in p
  {
    forall i | 0 <= i < |p| ensures p[i] != a.to {
      if 1 <= i < a.cost - 1 { assert Falls(s, p, i, a.dest, a.cost - 1); }
    }
  }

  lemma DeliverImproves(links: Links, s: Hosts, a: Advert)
    requires TablesOk(links, s) && AdvertOk(links, s, a)
    ensures Better(s, AfterDeliver(s, a))
  {
  }

  lemma EntryStays(links: Links, s: Hosts, t: Hosts, host: nat, dest: nat)
    requires TablesOk(links, s) && AreTables(t) && Better(s, t) && IsHost(host) && IsHost(dest)
    requires Table(t, host)[dest - 1] == Table(s, host)[dest - 1]
    requires host in t.started ==> host in s.started
    ensures EntryOk(links, t, host, dest) && CostOk(links, t, host, dest)
  {
    assert EntryOk(links, s, host, dest) && CostOk(links, s, host, dest);
    if HasRoute(links, s, host, dest, Cost(s, host, dest)) {
      RouteStays(links, s, t, host, dest, Cost(s, host, dest));
    }
  }

  lemma DeliverKeeps(links: Links, s: Hosts, a: Advert)
    requires TablesOk(links, s) && AdvertOk(links, s, a)
    ensures TablesOk(links, AfterDeliver(s, a))
  {
    var t := AfterDeliver(s, a);
    DeliverImproves(links, s, a);
    forall host, dest | IsHost(host) && IsHost(dest)
      ensures EntryOk(links, t, host, dest) && CostOk(links, t, host, dest)
    {
      if host == a.to && dest == a.dest && Improves(Table(s, a.to), a) {
        LearnedEntry(links, s, a);
      } else {
        EntryStays(links, s, t, host, dest);
      }
    }
  }

  lemma LearnedEntry(links: Links, s: Hosts, a: Advert)
    requires TablesOk(links, s) && AdvertOk(links, s, a) && Improves(Table(s, a.to), a)
    ensures EntryOk(links, AfterDeliver(s, a), a.to, a.dest)
    ensures CostOk(links, AfterDeliver(s, a), a.to, a.dest)
  {
    var t := AfterDeliver(s, a);
    DeliverImproves(links, s, a);
    LearnedHasRoute(links, s, a);
    assert EntryOk(links, s, a.to, a.dest);
    assert (a.to, a.gateway) in links;
    if HasRoute(links, s, a.to, a.dest, a.cost) {
      RouteStays(links, s, t, a.to, a.dest, a.cost);
    }
  }

  // ---- A host enters itself and its neighbours ----

  lemma StartImproves(links: Links, s: Hosts, host: nat)
    requires AreTables(s) && IsHost(host)
    ensures Better(s, AfterStart(links, s, host))
  {
  }

  lemma DirectRoute(links: Links, s: Hosts, host: nat, dest: nat)
    requires AreTables(s) && IsHost(host) && IsHost(dest) && host != dest && (host, dest) in links
    ensures HasRoute(links, s, host, dest, 1)
  {
    var p := [host, dest];
    assert Linked(links, p, 0);
    assert IsRoute(links, s, p, host, dest, 1);
  }

  lemma StartKeepsEntry(links: Links, s: Hosts, me: nat, host: nat, dest: nat)
    requires TablesOk(links, s) && IsHost(me) && me !in s.started && IsHost(host) && IsHost(dest)
    ensures EntryOk(links, AfterStart(links, s, me), host, dest)
    ensures CostOk(links, AfterStart(links, s, me), host, dest)
  {
    var t := AfterStart(links, s, me);
    StartImproves(links, s, me);
    assert EntryOk(links, s, host, dest) && CostOk(links, s, host, dest);
    assert dest in NeighborsOf(links, me) <==> (me, dest) in links by {
      if (me, dest) in links { assert (me, dest).1 == dest; }
    }
    if host == me && (dest == me || (me, dest) in links) {
      if dest != me { DirectRoute(links, t, me, dest); }
    } else if HasRoute(links, s, host, dest, Cost(s, host, dest)) {
      RouteStays(links, s, t, host, dest, Cost(s, host, dest));
    }
  }

  lemma StartKeeps(links: Links, s: Hosts, me: nat)
    requires TablesOk(links, s) && IsHost(me) && me !in s.started
    ensures TablesOk(links, AfterStart(links, s, me))
  {
    var t := AfterStart(links, s, me);
    forall host, dest | IsHost(host) && IsHost(dest)
      ensures EntryOk(links, t, host, dest) && CostOk(links, t, host, dest)
    {
      StartKeepsEntry(links, s, me, host, dest);
    }
  }

  lemma StepKeeps(links: Links, s: Network, a: Action)
    requires Inv(links, s) && Enabled(links, s, a)
    ensures Inv(links, Apply(links, s, a))
    ensures Better(s.hosts, Apply(links, s, a).hosts)
  {
    var t := Apply(links, s, a);
    match a {
      case Start(me) =>
        StartKeeps(links, s.hosts, me);
        StartImproves(links, s.hosts, me);
      case Send(host, to, dest) =>
        SendKeeps(links, s, host, to, dest);
      case Deliver(advert) =>
        DeliverKeeps(links, s.hosts, advert);
        DeliverImproves(links, s.hosts, advert);
    }
    if !a.Send? {
      forall b | b in t.net ensures AdvertOk(links, t.hosts, b) {
        AdvertStays(links, s.hosts, t.hosts, b);
      }
    }
  }

  // ---- Runs ----

  /** A history of the network: what was done, and the states before, between and after. */
  predicate IsHistory(links: Links, states: seq<Network>, actions: seq<Action>) {
    && |states| == |actions| + 1 && states[0] == Initial()
    && forall i | 0 <= i < |actions| :: IsStep(links, states, actions, i)
  }

  predicate IsStep(links: Links, states: seq<Network>, actions: seq<Action>, i: nat)
    requires i < |actions| && |states| == |actions| + 1
  {
    Enabled(links, states[i], actions[i]) && states[i + 1] == Apply(links, states[i], actions[i])
  }

  lemma {:induction false} HistoryKeeps(links: Links, states: seq<Network>, actions: seq<Action>, i: nat)
    requires IsTopology(links) && IsHistory(links, states, actions) && i < |states|
    ensures Inv(links, states[i])
  {
    if i == 0 {
      InitialHolds(links);
    } else {
      HistoryKeeps(links, states, actions, i - 1);
      assert IsStep(links, states, actions, i - 1);
      StepKeeps(links, states[i - 1], actions[i - 1]);
    }
  }

  lemma BetterTwice(s: Hosts, u: Hosts, t: Hosts)
    requires AreTables(s) && AreTables(u) && AreTables(t) && Better(s, u) && Better(u, t)
    ensures Better(s, t)
  {
  }

  lemma StepBetter(links: Links, states: seq<Network>, actions: seq<Action>, i: nat)
    requires IsTopology(links) && IsHistory(links, states, actions) && i < |actions|
    ensures AreTables(states[i].hosts) && AreTables(states[i + 1].hosts)
    ensures Better(states[i].hosts, states[i + 1].hosts)
  {
    HistoryKeeps(links, states, actions, i);
    assert IsStep(links, states, actions, i);
    StepKeeps(links, states[i], actions[i]);
  }

  lemma {:induction false} HistoryImproves(links: Links, states: seq<Network>, actions: seq<Action>, i: nat, j: nat)
    requires IsTopology(links) && IsHistory(links, states, actions) && i <= j < |states|
    ensures AreTables(states[i].hosts) && AreTables(states[j].hosts)
    ensures Better(states[i].hosts, states[j].hosts)
    decreases j
  {
    if i == j {
      HistoryKeeps(links, states, actions, i);
    } else {
      HistoryImproves(links, states, actions, i, j - 1);
      StepBetter(links, states, actions, j - 1);
      BetterTwice(states[i].hosts, states[j - 1].hosts, states[j].hosts);
    }
  }

  /** Two hosts have a neighbour, other than themselves, in common. */
  predicate Between(links: Links, host: nat, middle: nat, dest: nat) {
    IsHost(middle) && middle != host && middle != dest && (host, middle) in links && (middle, dest) in links
  }

  ghost predicate HaveCommonNeighbor(links: Links, host: nat, dest: nat) {
    exists middle :: Between(links, host, middle, dest)
  }

  ghost predicate IsSimplePathLength(links: Links, host: nat, dest: nat, length: nat) {
    exists p :: IsWalk(links, p, host, dest) && Distinct(p) && |p| == length + 1
  }

  lemma TwoHops(links: Links, host: nat, dest: nat)
    requires IsHost(host) && IsHost(dest) && host != dest
    ensures IsSimplePathLength(links, host, dest, 2) <==> HaveCommonNeighbor(links, host, dest)
  {
    if HaveCommonNeighbor(links, host, dest) {
      var middle :| Between(links, host, middle, dest);
      var p := [host, middle, dest];
      assert Linked(links, p, 0) && Linked(links, p, 1);
      assert IsWalk(links, p, host, dest) && Distinct(p);
    }
    if IsSimplePathLength(links, host, dest, 2) {
      var p :| IsWalk(links, p, host, dest) && Distinct(p) && |p| == 3;
      assert Linked(links, p, 0) && Linked(links, p, 1);
      assert Between(links, host, p[1], dest);
    }
  }

  lemma OneHop(links: Links, host: nat, dest: nat)
    requires IsHost(host) && IsHost(dest) && host != dest && (host, dest) in links
    ensures IsSimplePathLength(links, host, dest, 1)
  {
    var p := [host, dest];
    assert Linked(links, p, 0);
    assert IsWalk(links, p, host, dest) && Distinct(p);
  }

  /** Exactly which finite costs between two hosts are lengths of simple paths: all but the 2 that a
      host may hold of a neighbour with which it has no other neighbour in common. Every cost is
      below the number of hosts, so that the 8-bit increment never wraps, and at least the length of
      some simple path. */
  lemma CostIsPathLengthExactly(links: Links, states: seq<Network>, actions: seq<Action>, i: nat, host: nat, dest: nat)
    requires IsTopology(links) && IsHistory(links, states, actions) && i < |states|
    requires IsHost(host) && IsHost(dest) && host != dest
    ensures AreTables(states[i].hosts)
    ensures var cost := Cost(states[i].hosts, host, dest);
            && cost < MAX_HOSTS
            && (cost != 0 ==>
                  && (IsSimplePathLength(links, host, dest, cost)
                      <==> !((host, dest) in links && cost == 2 && !HaveCommonNeighbor(links, host, dest)))
                  && exists length: nat :: length <= cost && IsSimplePathLength(links, host, dest, length))
  {
    HistoryKeeps(links, states, actions, i);
    var s := states[i].hosts;
    var cost := Cost(s, host, dest);
    CostIsSmall(links, s, host, dest);
    assert CostOk(links, s, host, dest);
    TwoHops(links, host, dest);
    if cost != 0 {
      if HasRoute(links, s, host, dest, cost) {
        var p :| IsRoute(links, s, p, host, dest, cost);
        assert IsSimplePathLength(links, host, dest, cost);
      } else {
        OneHop(links, host, dest);
      }
    }
  }

  /** A host that has entered its neighbours holds no such cost. */
  lemma StartedCostIsPathLength(links: Links, states: seq<Network>, actions: seq<Action>, i: nat, host: nat, dest: nat)
    requires IsTopology(links) && IsHistory(links, states, actions) && i < |states|
    requires IsHost(host) && IsHost(dest) && host != dest && host in states[i].hosts.started
    ensures AreTables(states[i].hosts)
    ensures Cost(states[i].hosts, host, dest) != 0 ==>
              IsSimplePathLength(links, host, dest, Cost(states[i].hosts, host, dest))
  {
    HistoryKeeps(links, states, actions, i);
    CostIsPathLengthExactly(links, states, actions, i, host, dest);
    assert EntryOk(links, states[i].hosts, host, dest);
  }

  /** A host that has not entered its neighbours yet may hear of any of them at cost 2. */
  lemma NeighborOverestimated(links: Links, host: nat, dest: nat) returns (states: seq<Network>, actions: seq<Action>)
    requires IsTopology(links) && (host, dest) in links && host != dest
    ensures IsHistory(links, states, actions) && |states| == 4 && AreTables(states[3].hosts)
    ensures IsHost(host) && IsHost(dest) && Cost(states[3].hosts, host, dest) == 2
  {
    var told := Advert(host, dest, 2, dest);
    assert (dest, host) in links;
    actions := [Start(dest), Send(dest, host, dest), Deliver(told)];
    var s0 := Initial();
    var s1 := Apply(links, s0, actions[0]);
    assert Table(s1.hosts, dest)[dest - 1] == Route(1, dest);
    var s2 := Apply(links, s1, actions[1]);
    assert Table(s1.hosts, host)[dest - 1] == NO_ROUTE;
    var s3 := Apply(links, s2, actions[2]);
    states := [s0, s1, s2, s3];
    assert IsStep(links, states, actions, 0) && IsStep(links, states, actions, 1) && IsStep(links, states, actions, 2);
  }

  ghost predicate EveryLinkBridged(links: Links, host: nat, dest: nat)
    requires IsTopology(links)
  {
    (host, dest) in links && host != dest ==> HaveCommonNeighbor(links, host, dest)
  }

  /** The finite costs in one state are lengths of simple paths. */
  ghost predicate CostsArePaths(links: Links, s: Hosts)
    requires AreTables(s)
  {
    forall host, dest | IsHost(host) && IsHost(dest) && host != dest && Cost(s, host, dest) != 0 ::
      IsSimplePathLength(links, host, dest, Cost(s, host, dest))
  }

  ghost predicate AlwaysPaths(links: Links) {
    forall states: seq<Network>, actions: seq<Action>, i: nat | IsHistory(links, states, actions) && i < |states| ::
      AreTables(states[i].hosts) && CostsArePaths(links, states[i].hosts)
  }

  /** The topologies on which every cost is the length of a simple path at all times: exactly those in
      which any two neighbours have another neighbour in common. */
  lemma AlwaysPathsExactly(links: Links)
    requires IsTopology(links)
    ensures AlwaysPaths(links) <==> forall host: nat, dest: nat :: EveryLinkBridged(links, host, dest)
  {
    if AlwaysPaths(links) {
      forall host: nat, dest: nat ensures EveryLinkBridged(links, host, dest) {
        if (host, dest) in links && host != dest {
          var states, actions := NeighborOverestimated(links, host, dest);
          assert CostsArePaths(links, states[3].hosts);
          TwoHops(links, host, dest);
        }
      }
    }
    if forall host: nat, dest: nat :: EveryLinkBridged(links, host, dest) {
      forall states: seq<Network>, actions: seq<Action>, i: nat
        | IsHistory(links, states, actions) && i < |states|
        ensures AreTables(states[i].hosts) && CostsArePaths(links, states[i].hosts)
      {
        BridgedCostsArePaths(links, states, actions, i);
      }
    }
  }

  lemma BridgedCostsArePaths(links: Links, states: seq<Network>, actions: seq<Action>, i: nat)
    requires IsTopology(links) && IsHistory(links, states, actions) && i < |states|
    requires forall host: nat, dest: nat :: EveryLinkBridged(links, host, dest)
    ensures AreTables(states[i].hosts) && CostsArePaths(links, states[i].hosts)
  {
    HistoryKeeps(links, states, actions, i);
    var s := states[i].hosts;
    forall host, dest | IsHost(host) && IsHost(dest) && host != dest && Cost(s, host, dest) != 0
      ensures IsSimplePathLength(links, host, dest, Cost(s, host, dest))
    {
      CostIsPathLengthExactly(links, states, actions, i, host, dest);
      assert EveryLinkBridged(links, host, dest);
    }
  }

  // ---- Forwarding ----

  /** A packet under way: where it is, how many hops it made, and its time to live, which every
      host but the first decrements in 8 bits. */
  datatype Packet = Packet(at: nat, hops: nat, ttl: nat)

  function Forwarded(s: Hosts, p: Packet, dest: nat): Packet
    requires AreTables(s) && IsHost(p.at)
  {
    Packet(NextHop(Table(s, p.at), p.at, dest), p.hops + 1, if p.hops == 0 then p.ttl else (p.ttl + 255) % 256)
  }

  /** The packet makes its `k`-th hop in the `when[k]`-th state of the history: tables may change
      between any two hops. */
  predicate IsJourney(states: seq<Network>, when: seq<nat>, trail: seq<Packet>, dest: nat) {
    && |trail| == |when| + 1
    && (forall k | 0 <= k < |when| :: when[k] < |states|)
    && (forall j, k | 0 <= j < k < |when| :: when[j] <= when[k])
    && (forall k | 0 <= k < |when| :: IsHop(states[when[k]].hosts, trail, dest, k))
  }

  predicate IsHop(s: Hosts, trail: seq<Packet>, dest: nat, k: nat)
    requires k + 1 < |trail|
  {
    && AreTables(s) && IsHost(trail[k].at) && trail[k].at != dest
    && trail[k + 1] == Forwarded(s, trail[k], dest)
  }

  /** One hop leads over a link, to the destination or to a host strictly closer to it. */
  lemma HopDescends(links: Links, s: Hosts, at: nat, dest: nat)
    requires TablesOk(links, s) && IsHost(at) && IsHost(dest) && at != dest && Cost(s, at, dest) != 0
    ensures var hop := NextHop(Table(s, at), at, dest);
            && (at, hop) in links && IsHost(hop)
            && (hop == dest || 1 <= Cost(s, hop, dest) < Cost(s, at, dest))
  {
    assert EntryOk(links, s, at, dest);
  }

  /** There is no hop exactly when the destination is no host or not known. */
  lemma NoHopExactly(links: Links, s: Hosts, at: nat, dest: nat)
    requires TablesOk(links, s) && IsHost(at)
    ensures NextHop(Table(s, at), at, dest) == 0 <==> !IsHost(dest) || Cost(s, at, dest) == 0
  {
    if IsHost(dest) {
      assert EntryOk(links, s, at, dest);
    }
  }

  /** What remains to be travelled shrinks with every hop, whatever the tables do meanwhile. */
  lemma {:induction false} JourneyShrinks(links: Links, states: seq<Network>, actions: seq<Action>,
                                          when: seq<nat>, trail: seq<Packet>, dest: nat, k: nat)
    requires IsTopology(links) && IsHistory(links, states, actions) && IsJourney(states, when, trail, dest)
    requires IsHost(dest) && k < |when| && trail[0].hops == 0
    requires AreTables(states[when[0]].hosts) && IsHost(trail[0].at)
    requires Cost(states[when[0]].hosts, trail[0].at, dest) != 0
    ensures AreTables(states[when[k]].hosts) && IsHost(trail[k].at)
    ensures 1 <= Cost(states[when[k]].hosts, trail[k].at, dest)
                 <= Cost(states[when[0]].hosts, trail[0].at, dest) - k
  {
    if k > 0 {
      JourneyShrinks(links, states, actions, when, trail, dest, k - 1);
      assert IsHop(states[when[k - 1]].hosts, trail, dest, k - 1);
      HistoryKeeps(links, states, actions, when[k - 1]);
      HopDescends(links, states[when[k - 1]].hosts, trail[k - 1].at, dest);
      HistoryImproves(links, states, actions, when[k - 1], when[k]);
    }
  }

  lemma HopOfJourney(links: Links, states: seq<Network>, actions: seq<Action>,
                     when: seq<nat>, trail: seq<Packet>, dest: nat, k: nat)
    requires IsTopology(links) && IsHistory(links, states, actions) && IsJourney(states, when, trail, dest)
    requires IsHost(dest) && k < |when| && trail[0].hops == 0
    requires AreTables(states[when[0]].hosts) && IsHost(trail[0].at)
    requires Cost(states[when[0]].hosts, trail[0].at, dest) != 0
    ensures (trail[k].at, trail[k + 1].at) in links
    ensures Cost(states[when[0]].hosts, trail[0].at, dest) == k + 1 ==> trail[k + 1].at == dest
  {
    JourneyShrinks(links, states, actions, when, trail, dest, k);
    HistoryKeeps(links, states, actions, when[k]);
    assert IsHop(states[when[k]].hosts, trail, dest, k);
    HopDescends(links, states[when[k]].hosts, trail[k].at, dest);
  }

  lemma {:induction false} JourneyCounts(states: seq<Network>, when: seq<nat>, trail: seq<Packet>, dest: nat, k: nat)
    requires IsJourney(states, when, trail, dest) && k <= |when| < MAX_HOSTS
    requires trail[0].hops == 0 && trail[0].ttl == TTL
    ensures trail[k].hops == k && trail[k].ttl == if k == 0 then TTL else TTL - (k - 1)
  {
    if k > 0 {
      JourneyCounts(states, when, trail, dest, k - 1);
      assert IsHop(states[when[k - 1]].hosts, trail, dest, k - 1);
    }
  }

  lemma CostIsSmall(links: Links, s: Hosts, host: nat, dest: nat)
    requires TablesOk(links, s) && IsHost(host) && IsHost(dest) && host != dest
    ensures Cost(s, host, dest) < MAX_HOSTS
  {
    assert CostOk(links, s, host, dest);
    if Cost(s, host, dest) != 0 && HasRoute(links, s, host, dest, Cost(s, host, dest)) {
      RouteIsShort(links, s, host, dest, Cost(s, host, dest));
    }
  }

  /** Loop freedom: a packet for a known destination is handed over links only, makes at most as
      many hops as the cost said when it set out, is then at its destination, and never runs out
      of time to live, in every history and with the tables changing under it. */
  lemma JourneyEnds(links: Links, states: seq<Network>, actions: seq<Action>,
                    when: seq<nat>, trail: seq<Packet>, dest: nat)
    requires IsTopology(links) && IsHistory(links, states, actions) && IsJourney(states, when, trail, dest)
    requires IsHost(dest) && when != [] && trail[0].hops == 0 && trail[0].ttl == TTL
    requires AreTables(states[when[0]].hosts) && IsHost(trail[0].at)
    requires Cost(states[when[0]].hosts, trail[0].at, dest) != 0
    ensures |when| <= Cost(states[when[0]].hosts, trail[0].at, dest) < MAX_HOSTS
    ensures |when| == Cost(states[when[0]].hosts, trail[0].at, dest) ==> trail[|when|].at == dest
    ensures forall k | 0 <= k < |when| :: (trail[k].at, trail[k + 1].at) in links
    ensures forall k | 0 <= k <= |when| :: trail[k].ttl >= 2
  {
    var n := |when| - 1;
    assert IsHop(states[when[0]].hosts, trail, dest, 0);
    HistoryKeeps(links, states, actions, when[0]);
    CostIsSmall(links, states[when[0]].hosts, trail[0].at, dest);
    JourneyShrinks(links, states, actions, when, trail, dest, n);
    forall k | 0 <= k < |when| ensures (trail[k].at, trail[k + 1].at) in links {
      HopOfJourney(links, states, actions, when, trail, dest, k);
    }
    HopOfJourney(links, states, actions, when, trail, dest, n);
    forall k | 0 <= k <= |when| ensures trail[k].ttl >= 2 {
      JourneyCounts(states, when, trail, dest, k);
    }
  }

  // ---- Convergence ----

  /** What `host` knows of `dest` in state `i` has been sent to `to` and delivered before state `j`. */
  ghost predicate Told(states: seq<Network>, actions: seq<Action>, i: nat, j: nat, host: nat, to: nat, dest: nat)
  {
    && IsHost(host) && IsHost(dest)
    && exists a, b | i <= a < b < j && j < |states| && |states| == |actions| + 1 ::
         && actions[a] == Send(host, to, dest) && AreTables(states[a].hosts)
         && actions[b] == Deliver(Advertised(Table(states[a].hosts, host), host, to, dest))
  }

  /** Between states `i` and `j` every host has told all its neighbours all it knew. */
  ghost predicate Round(links: Links, states: seq<Network>, actions: seq<Action>, i: nat, j: nat) {
    && i <= j < |states| && AreTables(states[i].hosts)
    && forall host, to, dest {:trigger Told(states, actions, i, j, host, to, dest)}
         | (host, to) in links && IsHost(host) && IsHost(dest)
                               && Cost(states[i].hosts, host, dest) != 0 ::
         Told(states, actions, i, j, host, to, dest)
  }

  lemma ToldImproves(links: Links, states: seq<Network>, actions: seq<Action>, i: nat, j: nat,
                     host: nat, to: nat, dest: nat)
    requires IsTopology(links) && IsHistory(links, states, actions) && i <= j < |states|
    requires (host, to) in links && Told(states, actions, i, j, host, to, dest)
    requires AreTables(states[i].hosts) && Cost(states[i].hosts, host, dest) != 0 && host != dest
    ensures AreTables(states[j].hosts) && IsHost(to)
    ensures 1 <= Cost(states[j].hosts, to, dest) <= Cost(states[i].hosts, host, dest) + 1
  {
    var a, b :| i <= a < b < j && actions[a] == Send(host, to, dest) && AreTables(states[a].hosts)
                && actions[b] == Deliver(Advertised(Table(states[a].hosts, host), host, to, dest));
    HistoryKeeps(links, states, actions, a);
    CostIsSmall(links, states[a].hosts, host, dest);
    HistoryImproves(links, states, actions, i, a);
    assert (to, host) in links;
    var advert := Advertised(Table(states[a].hosts, host), host, to, dest);
    assert IsStep(links, states, actions, b);
    HeardImproves(states[b].hosts, advert);
    HistoryImproves(links, states, actions, b + 1, j);
  }

  lemma HeardImproves(s: Hosts, a: Advert)
    requires AreTables(s) && IsHost(a.to) && IsHost(a.dest) && a.cost != 0
    ensures 1 <= Cost(AfterDeliver(s, a), a.to, a.dest) <= a.cost
  {
  }

  /** After `k` complete rounds, every host knows every destination within `k + 1` links at no
      more than the length of any walk there. */
  lemma {:induction false} RoundsReach(links: Links, states: seq<Network>, actions: seq<Action>,
                                       marks: seq<nat>, k: nat, p: seq<nat>, host: nat, dest: nat)
    requires IsTopology(links) && IsHistory(links, states, actions)
    requires k < |marks| && (forall r | 0 <= r < |marks| :: marks[r] < |states|)
    requires forall r | 0 <= r < k :: Round(links, states, actions, marks[r], marks[r + 1])
    requires forall h | IsHost(h) :: h in states[marks[0]].hosts.started
    requires IsWalk(links, p, host, dest) && host != dest && |p| - 1 <= k + 1
    ensures AreTables(states[marks[k]].hosts)
    ensures 1 <= Cost(states[marks[k]].hosts, host, dest) <= |p| - 1
    decreases k, |p|
  {
    HistoryKeeps(links, states, actions, marks[k]);
    RoundsStarted(links, states, actions, marks, k);
    var s := states[marks[k]].hosts;
    assert EntryOk(links, s, host, dest);
    assert Linked(links, p, 0);
    var next := p[1];
    if next == dest {
      assert (host, dest) in links;
    } else {
      WalkTail(links, p, host, dest);
      RoundsReach(links, states, actions, marks, k - 1, p[1..], next, dest);
      assert (next, host) in links;
      RoundImproves(links, states, actions, marks[k - 1], marks[k], next, host, dest);
    }
  }

  lemma WalkTail(links: Links, p: seq<nat>, host: nat, dest: nat)
    requires IsWalk(links, p, host, dest) && |p| > 1
    ensures IsWalk(links, p[1..], p[1], dest)
  {
    var rest := p[1..];
    forall i | 0 <= i < |rest| - 1 ensures Linked(links, rest, i) {
      assert Linked(links, p, i + 1);
    }
  }

  lemma RoundImproves(links: Links, states: seq<Network>, actions: seq<Action>, i: nat, j: nat,
                      host: nat, to: nat, dest: nat)
    requires IsTopology(links) && IsHistory(links, states, actions) && Round(links, states, actions, i, j)
    requires (host, to) in links && IsHost(host) && IsHost(dest) && host != dest
    requires Cost(states[i].hosts, host, dest) != 0
    ensures AreTables(states[j].hosts) && IsHost(to)
    ensures 1 <= Cost(states[j].hosts, to, dest) <= Cost(states[i].hosts, host, dest) + 1
  {
    assert Told(states, actions, i, j, host, to, dest);
    ToldImproves(links, states, actions, i, j, host, to, dest);
  }

  lemma {:induction false} RoundsStarted(links: Links, states: seq<Network>, actions: seq<Action>,
                                         marks: seq<nat>, k: nat)
    requires IsTopology(links) && IsHistory(links, states, actions)
    requires k < |marks| && (forall r | 0 <= r < |marks| :: marks[r] < |states|)
    requires forall r | 0 <= r < k :: Round(links, states, actions, marks[r], marks[r + 1])
    requires forall h | IsHost(h) :: h in states[marks[0]].hosts.started
    ensures forall h | IsHost(h) :: h in states[marks[k]].hosts.started
  {
    if k > 0 {
      RoundsStarted(links, states, actions, marks, k - 1);
      assert Round(links, states, actions, marks[k - 1], marks[k]);
      HistoryImproves(links, states, actions, marks[k - 1], marks[k]);
    }
  }

  /** The distance: some walk has this length, and none is shorter. */
  ghost predicate IsDistance(links: Links, host: nat, dest: nat, length: nat) {
    && (exists p :: IsWalk(links, p, host, dest) && |p| == length + 1)
    && (forall p | IsWalk(links, p, host, dest) :: |p| >= length + 1)
  }

  /** Exactness: after `k` complete rounds the cost of every destination within `k + 1` links is
      its distance, and the entry of a host for itself stays at 1. */
  lemma CostsConverge(links: Links, states: seq<Network>, actions: seq<Action>, marks: seq<nat>, k: nat,
                      host: nat, dest: nat, length: nat)
    requires IsTopology(links) && IsHistory(links, states, actions)
    requires k < |marks| && (forall r | 0 <= r < |marks| :: marks[r] < |states|)
    requires forall r | 0 <= r < k :: Round(links, states, actions, marks[r], marks[r + 1])
    requires forall h | IsHost(h) :: h in states[marks[0]].hosts.started
    requires IsHost(host) && IsHost(dest) && IsDistance(links, host, dest, length) && length <= k + 1
    ensures AreTables(states[marks[k]].hosts)
    ensures Cost(states[marks[k]].hosts, host, dest) == if host == dest then 1 else length
  {
    HistoryKeeps(links, states, actions, marks[k]);
    RoundsStarted(links, states, actions, marks, k);
    if host == dest {
      assert EntryOk(links, states[marks[k]].hosts, host, dest);
    } else {
      var p :| IsWalk(links, p, host, dest) && |p| == length + 1;
      RoundsReach(links, states, actions, marks, k, p, host, dest);
      StartedCostIsPathLength(links, states, actions, marks[k], host, dest);
    }
  }

  // ---- After convergence ----

  /** No walk is shorter than the cost known. */
  ghost predicate Settled(links: Links, s: Hosts)
    requires AreTables(s)
  {
    forall host, dest, p {:trigger IsWalk(links, p, host, dest)}
      | IsHost(host) && IsHost(dest) && host != dest && IsWalk(links, p, host, dest) ::
      1 <= Cost(s, host, dest) <= |p| - 1
  }

  ghost predicate AllStarted(s: Hosts) {
    forall h | IsHost(h) :: h in s.started
  }

  /** A walk that comes back to a host can leave out the way between. */
  lemma Shortcut(links: Links, p: seq<nat>, host: nat, dest: nat, i: nat, j: nat)
    requires IsWalk(links, p, host, dest) && i < j < |p| && p[i] == p[j]
    ensures IsWalk(links, p[..i] + p[j..], host, dest)
  {
    var q := p[..i] + p[j..];
    forall k | 0 <= k < |q| - 1 ensures Linked(links, q, k) {
      if k < i {
        assert Linked(links, p, k);
      } else {
        assert Linked(links, p, k - i + j);
      }
    }
  }

  lemma {:induction false} ShortWalk(links: Links, p: seq<nat>, host: nat, dest: nat) returns (q: seq<nat>)
    requires IsWalk(links, p, host, dest)
    ensures IsWalk(links, q, host, dest) && |q| <= |p| && |q| <= MAX_HOSTS
    decreases |p|
  {
    if Distinct(p) {
      DistinctHostsAreFew(p, {1, 2, 3, 4, 5, 6});
      q := p;
    } else {
      var i, j :| 0 <= i < j < |p| && p[i] == p[j];
      Shortcut(links, p, host, dest, i, j);
      q := ShortWalk(links, p[..i] + p[j..], host, dest);
    }
  }

  /** Four rounds settle all tables. */
  lemma {:induction false} RoundsSettle(links: Links, states: seq<Network>, actions: seq<Action>, marks: seq<nat>)
    requires IsTopology(links) && IsHistory(links, states, actions)
    requires |marks| == MAX_HOSTS - 1 && (forall r | 0 <= r < |marks| :: marks[r] < |states|)
    requires forall r | 0 <= r < |marks| - 1 :: Round(links, states, actions, marks[r], marks[r + 1])
    requires AllStarted(states[marks[0]].hosts)
    ensures AreTables(states[marks[MAX_HOSTS - 2]].hosts)
    ensures Settled(links, states[marks[MAX_HOSTS - 2]].hosts)
    ensures AllStarted(states[marks[MAX_HOSTS - 2]].hosts)
  {
    var last := MAX_HOSTS - 2;
    HistoryKeeps(links, states, actions, marks[last]);
    RoundsStarted(links, states, actions, marks, last);
    forall host, dest, p | IsHost(host) && IsHost(dest) && host != dest && IsWalk(links, p, host, dest)
      ensures 1 <= Cost(states[marks[last]].hosts, host, dest) <= |p| - 1
    {
      var q := ShortWalk(links, p, host, dest);
      RoundsReach(links, states, actions, marks, last, q, host, dest);
    }
  }

  /** An advertisement comes over a walk, along which the table that it reaches is as good already. */
  lemma NothingImproves(links: Links, s: Hosts, a: Advert)
    requires TablesOk(links, s) && Settled(links, s) && AllStarted(s) && AdvertOk(links, s, a)
    ensures !Improves(Table(s, a.to), a)
  {
    assert EntryOk(links, s, a.to, a.dest);
    assert (a.to, a.gateway) in links;
    if a.to != a.dest && a.gateway != a.dest {
      var p :| IsRoute(links, s, p, a.gateway, a.dest, a.cost - 1);
      var q := [a.to] + p;
      forall i | 0 <= i < |q| - 1 ensures Linked(links, q, i) {
        if i > 0 { assert Linked(links, p, i - 1); }
      }
      assert IsWalk(links, q, a.to, a.dest);
    }
  }

  lemma SettledStep(links: Links, s: Network, a: Action)
    requires Inv(links, s) && Settled(links, s.hosts) && AllStarted(s.hosts) && Enabled(links, s, a)
    ensures Apply(links, s, a).hosts == s.hosts
  {
    if a.Deliver? {
      NothingImproves(links, s.hosts, a.advert);
      assert s.hosts.tables[a.advert.to - 1 := Table(s.hosts, a.advert.to)] == s.hosts.tables;
    }
  }

  /** Finality: from then on no table changes any more, gateways included, whatever old or new
      advertisements arrive. */
  lemma {:induction false} SettledForever(links: Links, states: seq<Network>, actions: seq<Action>, i: nat, j: nat)
    requires IsTopology(links) && IsHistory(links, states, actions) && i <= j < |states|
    requires AreTables(states[i].hosts) && Settled(links, states[i].hosts) && AllStarted(states[i].hosts)
    ensures states[j].hosts == states[i].hosts
    decreases j
  {
    if i < j {
      SettledForever(links, states, actions, i, j - 1);
      HistoryKeeps(links, states, actions, j - 1);
      assert IsStep(links, states, actions, j - 1);
      SettledStep(links, states[j - 1], actions[j - 1]);
    }
  }

  /** So after four rounds the tables are what they will ever be, and hold every distance. */
  lemma {:induction false} ConvergedForever(links: Links, states: seq<Network>, actions: seq<Action>, marks: seq<nat>,
                                            j: nat, host: nat, dest: nat, length: nat)
    requires IsTopology(links) && IsHistory(links, states, actions)
    requires |marks| == MAX_HOSTS - 1 && (forall r | 0 <= r < |marks| :: marks[r] < |states|)
    requires forall r | 0 <= r < |marks| - 1 :: Round(links, states, actions, marks[r], marks[r + 1])
    requires AllStarted(states[marks[0]].hosts)
    requires marks[MAX_HOSTS - 2] <= j < |states|
    requires IsHost(host) && IsHost(dest) && IsDistance(links, host, dest, length)
    ensures states[j].hosts == states[marks[MAX_HOSTS - 2]].hosts && AreTables(states[j].hosts)
    ensures Cost(states[j].hosts, host, dest) == if host == dest then 1 else length
  {
    RoundsSettle(links, states, actions, marks);
    SettledForever(links, states, actions, marks[MAX_HOSTS - 2], j);
    var p :| IsWalk(links, p, host, dest) && |p| == length + 1;
    var q := ShortWalk(links, p, host, dest);
    CostsConverge(links, states, actions, marks, MAX_HOSTS - 2, host, dest, length);
  }
}
