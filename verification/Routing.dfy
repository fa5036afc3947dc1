/** The routing table of one host: how it starts, what it advertises, what it learns, and where
    it sends a packet. Hosts are numbered from 1; entry d - 1 is the route to host d. */
module Routing {

  const MAX_HOSTS: nat := 6

  const TTL: nat := 6

  // An 8-bit cost; 0 stands for infinity, and gateway 0 for none.
  datatype Route = Route(cost: nat, gateway: nat)

  const NO_ROUTE := Route(0, 0)

  /** An advertisement in flight to host `to`. */
  datatype Advert = Advert(to: nat, dest: nat, cost: nat, gateway: nat)

  predicate IsHost(host: nat) {
    1 <= host <= MAX_HOSTS
  }

  predicate IsTable(table: seq<Route>) {
    |table| == MAX_HOSTS
  }

  /** The table after a host has entered itself and its neighbours. */
  function Started(table: seq<Route>, me: nat, neighbors: set<nat>): (r: seq<Route>)
    requires IsTable(table)
    ensures IsTable(r)
  {
    seq(MAX_HOSTS, i requires 0 <= i < MAX_HOSTS =>
      if i + 1 in neighbors || i + 1 == me then Route(1, me) else table[i])
  }

  /** Only a strictly better cost, or a first one, replaces an entry. */
  predicate Improves(table: seq<Route>, a: Advert)
    requires IsTable(table) && IsHost(a.dest)
  {
    table[a.dest - 1].cost == 0 || a.cost < table[a.dest - 1].cost
  }

  function Learned(table: seq<Route>, a: Advert): (r: seq<Route>)
    requires IsTable(table) && IsHost(a.dest)
    ensures IsTable(r)
  {
    if Improves(table, a) then table[a.dest - 1 := Route(a.cost, a.gateway)] else table
  }

  /** Of two costs the smaller is kept, and the entry as it was if they are equal, where an entry of 0 is
      larger than any cost, but an advertised 0 is not: a cost that wrapped would erase the entry. Other
      entries stay. */
  lemma LearnedExactly(table: seq<Route>, a: Advert, d: nat)
    requires IsTable(table) && IsHost(a.dest) && IsHost(d)
    ensures var before, after := table[d - 1], Learned(table, a)[d - 1];
            if d != a.dest || (before.cost != 0 && before.cost <= a.cost) then after == before
            else after == Route(a.cost, a.gateway)
    ensures a.cost == 0 ==> Learned(table, a)[a.dest - 1].cost == 0
  {
  }

  /** The cost is incremented in 8 bits. */
  function Advertised(table: seq<Route>, me: nat, to: nat, dest: nat): Advert
    requires IsTable(table) && IsHost(dest)
  {
    Advert(to, dest, (table[dest - 1].cost + 1) % 256, me)
  }

  /** What is sent to one neighbour: a message for each of the first `n` hosts that is known. */
  function AdvertsTo(table: seq<Route>, me: nat, to: nat, n: nat): seq<Advert>
    requires IsTable(table) && n <= MAX_HOSTS
  {
    if n == 0 then []
    else
      AdvertsTo(table, me, to, n - 1)
      + (if table[n - 1].cost != 0 then [Advertised(table, me, to, n)] else [])
  }

  /** What is sent to all neighbours among the first `n` hosts. */
  function AdvertsToAll(table: seq<Route>, me: nat, neighbors: set<nat>, n: nat): seq<Advert>
    requires IsTable(table) && n <= MAX_HOSTS
  {
    if n == 0 then []
    else
      AdvertsToAll(table, me, neighbors, n - 1)
      + (if n in neighbors then AdvertsTo(table, me, n, MAX_HOSTS) else [])
  }

  /** What is sent to a neighbour about one host: the cost known of it and one more, but 0, which stands
      for infinity, instead of 256. */
  predicate Tells(table: seq<Route>, me: nat, a: Advert)
    requires IsTable(table) && IsHost(a.dest)
  {
    var cost := table[a.dest - 1].cost;
    cost != 0 && a.gateway == me && a.cost == if cost == 255 then 0 else cost + 1
  }

  /** Exactly the known hosts are advertised. */
  lemma {:induction false} AdvertsToExactly(table: seq<Route>, me: nat, to: nat, n: nat, a: Advert)
    requires IsTable(table) && n <= MAX_HOSTS && IsHost(a.dest)
    requires forall i | 0 <= i < MAX_HOSTS :: table[i].cost < 256
    ensures a in AdvertsTo(table, me, to, n) <==> a.dest <= n && a.to == to && Tells(table, me, a)
  {
    if n > 0 {
      AdvertsToExactly(table, me, to, n - 1, a);
    }
  }

  /** Exactly the neighbours are told, and each is told of exactly the known hosts. */
  lemma {:induction false} AdvertsToAllExactly(table: seq<Route>, me: nat, neighbors: set<nat>, n: nat, a: Advert)
    requires IsTable(table) && n <= MAX_HOSTS && IsHost(a.dest) && IsHost(a.to)
    requires forall i | 0 <= i < MAX_HOSTS :: table[i].cost < 256
    ensures a in AdvertsToAll(table, me, neighbors, n) <==> a.to <= n && a.to in neighbors && Tells(table, me, a)
  {
    if n > 0 {
      AdvertsToAllExactly(table, me, neighbors, n - 1, a);
      AdvertsToExactly(table, me, n, MAX_HOSTS, a);
    }
  }

  /** The neighbour to send to, or 0. */
  function NextHop(table: seq<Route>, me: nat, dest: nat): nat
    requires IsTable(table)
  {
    if dest == 0 || dest > MAX_HOSTS then 0
    else if table[dest - 1].gateway == 0 then 0
    else if table[dest - 1].gateway == me then dest
    else table[dest - 1].gateway
  }

  class Router {
    const me: nat
    const neighbors: array<bool>
    const routes: array<Route>

    predicate Valid()
      reads this
    {
      routes.Length == MAX_HOSTS && neighbors.Length == MAX_HOSTS && neighbors as object != routes
    }

    function Neighbors(): set<nat>
      requires Valid()
      reads this, neighbors
    {
      set i: nat | i < MAX_HOSTS && neighbors[i] :: i + 1
    }

    /** Links to unknown MTU -1 are absent. */
    constructor (me: nat, links: seq<int>)
      requires |links| == MAX_HOSTS
      ensures Valid() && fresh(routes) && fresh(neighbors) && this.me == me
      ensures Neighbors() == set i: nat | i < MAX_HOSTS && links[i] != -1 :: i + 1
      ensures routes[..] == seq(MAX_HOSTS, i => NO_ROUTE)
    {
      this.me := me;
      neighbors := new bool[MAX_HOSTS](i requires 0 <= i < MAX_HOSTS => links[i] != -1);
      routes := new Route[MAX_HOSTS](i => NO_ROUTE);
      new;
      assert forall i: nat | i < MAX_HOSTS :: neighbors[i] == (links[i] != -1);
      forall h ensures h in Neighbors() <==> h in (set i: nat | i < MAX_HOSTS && links[i] != -1 :: i + 1) {
        if 1 <= h <= MAX_HOSTS {
          var i: nat := h - 1;
          assert neighbors[i] == (links[i] != -1);
        }
      }
    }

    /** Enters the host itself and its neighbours. */
    method Start()
      requires Valid()
      modifies routes
      ensures routes[..] == Started(old(routes[..]), me, Neighbors())
    {
      var i := 0;
      while i < MAX_HOSTS
        invariant 0 <= i <= MAX_HOSTS
        invariant forall j | 0 <= j < i :: routes[j] == Started(old(routes[..]), me, Neighbors())[j]
        invariant forall j | i <= j < MAX_HOSTS :: routes[j] == old(routes[j])
      {
        if neighbors[i] || i + 1 == me {
          routes[i] := Route(1, me);
        }
        i := i + 1;
      }
    }

    /** An advertisement for no host of the table makes the code write beside it; what happens then is
        not modelled, but that it would is. */
    method HandleRoute(a: Advert) returns (inTable: bool)
      requires Valid()
      modifies routes
      ensures inTable <==> IsHost(a.dest)
      ensures routes[..] == if inTable then Learned(old(routes[..]), a) else old(routes[..])
    {
      if a.dest == 0 || a.dest - 1 >= MAX_HOSTS {
        return false;
      }
      if routes[a.dest - 1].cost == 0 || a.cost < routes[a.dest - 1].cost {
        routes[a.dest - 1] := Route(a.cost, a.gateway);
      }
      return true;
    }

    /** Everything this host knows, addressed to every neighbour. */
    method SendRoutes() returns (adverts: seq<Advert>)
      requires Valid()
      ensures adverts == AdvertsToAll(routes[..], me, Neighbors(), MAX_HOSTS)
    {
      adverts := [];
      var i := 0;
      while i < MAX_HOSTS
        invariant 0 <= i <= MAX_HOSTS
        invariant adverts == AdvertsToAll(routes[..], me, Neighbors(), i)
      {
        if neighbors[i] {
          var known := SendTo(i + 1);
          adverts := adverts + known;
        }
        i := i + 1;
      }
    }

    method SendTo(to: nat) returns (adverts: seq<Advert>)
      requires Valid()
      ensures adverts == AdvertsTo(routes[..], me, to, MAX_HOSTS)
    {
      adverts := [];
      var i := 0;
      while i < MAX_HOSTS
        invariant 0 <= i <= MAX_HOSTS
        invariant adverts == AdvertsTo(routes[..], me, to, i)
      {
        if routes[i].cost != 0 {
          adverts := adverts + [Advert(to, i + 1, (routes[i].cost + 1) % 256, me)];
        }
        i := i + 1;
      }
    }

    method HostReachable(dest: nat) returns (hop: nat)
      requires Valid()
      ensures hop == NextHop(routes[..], me, dest)
    {
      if dest == 0 || dest - 1 >= MAX_HOSTS {
        return 0;
      }
      if routes[dest - 1].gateway != 0 {
        if routes[dest - 1].gateway == me {
          hop := dest;
        } else {
          hop := routes[dest - 1].gateway;
        }
      } else {
        hop := 0;
      }
    }
  }
}
