/**
 * The link-state router: its configuration, its view of the network (a
 * `WeightedGraph` whose arena is keyed by port), the `dead_lsps` filter and
 * the packets it hands to its socket, kept as an outbox.
 */
module LinkState {
  import opened Wrappers
  import opened Text
  import opened Dijkstra
  import opened Wire
  import opened Topology
  import opened Freshness
  import opened Sets

  /** Seconds between two floods of the router's own advertisement. */
  const UPDATE_INTERVAL: int := 4
  /** Seconds between two runs of Dijkstra's algorithm. */
  const ROUTE_UPDATE_INTERVAL: int := 8

  /** A datagram handed to the socket: destination port and text. */
  datatype Packet = Packet(port: int, msg: string)

  /**
   * The ports of a set of configured neighbours. `Topology.Ports` is the
   * same notion for the links of a message, which come as a sequence.
   */
  function PortsOf(neighbors: set<Link>): set<int> {
    set nb | nb in neighbors :: nb.port
  }

  /** Configured neighbours on distinct ports, none of them the router's own. */
  predicate DistinctPorts(port: int, neighbors: set<Link>) {
    && (forall nb :: nb in neighbors ==> nb.port != port)
    && (forall nb1, nb2 :: nb1 in neighbors && nb2 in neighbors && nb1.port == nb2.port ==> nb1 == nb2)
  }

  /** The ports `flood` sends to: every neighbour except the one the advertisement came from. */
  function Targets(neighbors: set<Link>, from: int): set<int> {
    set nb | nb in neighbors && nb.port != from :: nb.port
  }

  /** The fields `flood` and `send_lsp` read: the hop limit, the timestamp and the originator's port. */
  predicate Floodable(msg: string) {
    var data := Split(msg, ',');
    |data| >= 4 && ParseInt(data[0]).Some? && Stamp(msg).Some? && ParseInt(data[3]).Some?
  }

  function TtlOf(msg: string): int
    requires Floodable(msg)
  {
    ParseInt(Split(msg, ',')[0]).value
  }

  function OriginOf(msg: string): int
    requires Floodable(msg)
  {
    ParseInt(Split(msg, ',')[3]).value
  }

  /** A message that reads as an advertisement with an integer timestamp can be flooded, and its fields agree. */
  lemma ParsedFloodable(msg: string)
    requires Parse(msg).Some? && Stamp(msg).Some?
    ensures Floodable(msg)
    ensures TtlOf(msg) == Parse(msg).value.ttl && OriginOf(msg) == Parse(msg).value.port
  {
  }

  /** `msg` sent once to each port of `ports`, and to nothing else. */
  ghost predicate Broadcast(sent: seq<Packet>, ports: set<int>, msg: string) {
    && (forall i :: 0 <= i < |sent| ==> sent[i].msg == msg && sent[i].port in ports)
    && (forall i, j :: 0 <= i < j < |sent| ==> sent[i].port != sent[j].port)
    && (forall p :: p in ports ==> exists i :: 0 <= i < |sent| && sent[i].port == p)
  }

  /** `after` is `before` followed by a broadcast of `msg` to `ports`. */
  ghost predicate SentAfter(before: seq<Packet>, after: seq<Packet>, ports: set<int>, msg: string) {
    |before| <= |after| && after[..|before|] == before && Broadcast(after[|before|..], ports, msg)
  }

  /** The topology once the message received in a pass, if any, is merged. */
  function MergedWith(nodes: map<int, Vertex>, received: Option<string>): map<int, Vertex>
    requires received.Some? ==> Parse(received.value).Some?
  {
    if received.Some? then Merge(nodes, Parse(received.value).value) else nodes
  }

  /** `dead_lsps` once the message received in a pass, if any, is flooded. */
  function HeardFrom(dead: map<int, int>, received: Option<string>): map<int, int>
    requires received.Some? ==> Parse(received.value).Some? && Stamp(received.value).Some?
  {
    if received.Some? then Record(dead, Parse(received.value).value.port, Stamp(received.value).value) else dead
  }

  /**
   * The table `setupnodes` builds from `nodes0` for a router on `port`: a
   * fresh vertex for every neighbour, joined to the router's own vertex in
   * both directions, everything else as it was.
   */
  ghost predicate Linked(port: int, nodes0: map<int, Vertex>, nodes: map<int, Vertex>, done: set<Link>)
    requires port in nodes0
  {
    var src0 := nodes0[port];
    && port in nodes
    && nodes.Keys == nodes0.Keys + PortsOf(done)
    && (forall nb :: nb in done ==> nodes[nb.port] == NewVertex(nb.name).(nears := map[port := nb.weight]))
    && (forall id :: id in nodes0 && id != port ==> nodes[id] == nodes0[id])
    && nodes[port].name == src0.name && nodes[port].dist == src0.dist && nodes[port].prev == src0.prev
    && nodes[port].nears.Keys == src0.nears.Keys + PortsOf(done)
    && (forall nb :: nb in done ==> nodes[port].nears[nb.port] == nb.weight)
    && (forall k :: k in src0.nears && k !in PortsOf(done) ==> nodes[port].nears[k] == src0.nears[k])
  }

  /** One pass of `setupnodes`' loop: a fresh vertex for `nb`, joined to the router's vertex. */
  function Joined(nodes: map<int, Vertex>, port: int, nb: Link): map<int, Vertex>
    requires port in nodes && nb.port != port
  {
    var n1 := nodes[nb.port := NewVertex(nb.name).(nears := map[port := nb.weight])];
    n1[port := n1[port].(nears := n1[port].nears[nb.port := nb.weight])]
  }

  /**
   * One pass of `setupnodes`' loop keeps the table symmetric: the fresh
   * neighbour and the router learn each other at the same weight.
   */
  lemma JoinedSymmetric(nodes: map<int, Vertex>, port: int, nb: Link)
    requires port in nodes && nb.port !in nodes && Symmetric(nodes)
    ensures Symmetric(Joined(nodes, port, nb))
  {
    var r := Joined(nodes, port, nb);
    forall x, y | x in r && y in r[x].nears
      ensures y in r && x in r[y].nears && r[y].nears[x] == r[x].nears[y]
    {
      if x != port && x != nb.port {
        assert r[x] == nodes[x] && y != nb.port;
      }
    }
  }

  lemma LinkedStep(port: int, nodes0: map<int, Vertex>, nodes: map<int, Vertex>, done: set<Link>, nb: Link, all: set<Link>)
    requires port in nodes0 && Linked(port, nodes0, nodes, done)
    requires DistinctPorts(port, all) && done <= all && nb in all && nb !in done
    requires nb.port !in nodes0
    ensures Linked(port, nodes0, Joined(nodes, port, nb), done + {nb})
  {
    assert nb.port !in PortsOf(done) by {
      forall x | x in done ensures x.port != nb.port {
        assert x != nb;
      }
    }
    assert PortsOf(done + {nb}) == PortsOf(done) + {nb.port};
    JoinedVertices(port, nodes0, nodes, done, nb, all);
    JoinedRouter(port, nodes0, nodes, done, nb, all);
  }

  /** `LinkedStep` for every vertex but the router's own. */
  lemma JoinedVertices(port: int, nodes0: map<int, Vertex>, nodes: map<int, Vertex>, done: set<Link>, nb: Link, all: set<Link>)
    requires port in nodes0 && Linked(port, nodes0, nodes, done)
    requires DistinctPorts(port, all) && done <= all && nb in all && nb !in done
    requires nb.port !in nodes0 && nb.port !in PortsOf(done)
    requires PortsOf(done + {nb}) == PortsOf(done) + {nb.port}
    ensures var n := Joined(nodes, port, nb);
      && port in n
      && n.Keys == nodes0.Keys + PortsOf(done + {nb})
      && (forall x :: x in done + {nb} ==> n[x.port] == NewVertex(x.name).(nears := map[port := x.weight]))
      && (forall id :: id in nodes0 && id != port ==> n[id] == nodes0[id])
  {
    var n := Joined(nodes, port, nb);
    forall x | x in done + {nb}
      ensures n[x.port] == NewVertex(x.name).(nears := map[port := x.weight])
    {
      if x != nb {
        assert x.port != nb.port && x.port != port;
      }
    }
  }

  /** `LinkedStep` for the router's own vertex. */
  lemma JoinedRouter(port: int, nodes0: map<int, Vertex>, nodes: map<int, Vertex>, done: set<Link>, nb: Link, all: set<Link>)
    requires port in nodes0 && Linked(port, nodes0, nodes, done)
    requires DistinctPorts(port, all) && done <= all && nb in all && nb !in done
    requires nb.port !in nodes0 && nb.port !in PortsOf(done)
    requires PortsOf(done + {nb}) == PortsOf(done) + {nb.port}
    ensures var n := Joined(nodes, port, nb); var src0 := nodes0[port];
      && port in n
      && n[port].name == src0.name && n[port].dist == src0.dist && n[port].prev == src0.prev
      && n[port].nears.Keys == src0.nears.Keys + PortsOf(done + {nb})
      && (forall x :: x in done + {nb} ==> n[port].nears[x.port] == x.weight)
      && (forall k :: k in src0.nears && k !in PortsOf(done + {nb}) ==> n[port].nears[k] == src0.nears[k])
  {
    var n := Joined(nodes, port, nb);
    assert n[port].nears == nodes[port].nears[nb.port := nb.weight];
    forall x | x in done + {nb}
      ensures n[port].nears[x.port] == x.weight
    {
      if x != nb {
        assert x.port != nb.port;
      }
    }
  }

  lemma BroadcastAppend(sent: seq<Packet>, ports: set<int>, p: int, msg: string)
    requires Broadcast(sent, ports, msg) && p !in ports
    ensures Broadcast(sent + [Packet(p, msg)], ports + {p}, msg)
  {
    var sent' := sent + [Packet(p, msg)];
    forall q | q in ports + {p}
      ensures exists i :: 0 <= i < |sent'| && sent'[i].port == q
    {
      if q == p {
        assert sent'[|sent|].port == q;
      } else {
        var i :| 0 <= i < |sent| && sent[i].port == q;
        assert sent'[i].port == q;
      }
    }
  }

  lemma ForwardedText(msg: string, data: seq<string>, ttl: int)
    requires Parse(msg).Some? && data == Split(msg, ',') && ttl == Parse(msg).value.ttl - 1
    ensures Join(data[0 := IntToString(ttl)], ',') == Forwarded(msg)
  {
  }

  class Router {
    const routerName: string
    const udpPort: int
    const neighbors: set<Link>
    /** The network as far as this router knows it; its source is the router itself. */
    const topology: WeightedGraph
    /** Newest advertisement timestamp seen per originating port. */
    var deadLsps: map<int, int>
    /** Every packet handed to the socket, oldest first. */
    var outbox: seq<Packet>

    ghost predicate Valid()
      reads this, topology
    {
      && topology.Valid()
      && topology.source == udpPort
      && topology.vertices == topology.nodes.Keys
      && Symmetric(topology.nodes)
      && DistinctPorts(udpPort, neighbors)
    }

    constructor(name: string, port: int, neighbors: set<Link>)
      requires DistinctPorts(port, neighbors)
      ensures Valid() && fresh(topology)
      ensures routerName == name && udpPort == port && this.neighbors == neighbors
      ensures deadLsps == map[] && outbox == []
      ensures Linked(port, map[port := NewVertex(name)], topology.nodes, neighbors)
    {
      routerName := name;
      udpPort := port;
      this.neighbors := neighbors;
      topology := new WeightedGraph(port, map[port := NewVertex(name)], {port});
      deadLsps := map[];
      outbox := [];
      new;
      SetupNodes();
    }

    /** `add`: a new vertex for `port`, in the table and in the graph's vertex set. */
    method Add(name: string, port: int)
      requires Valid() && port !in topology.nodes
      modifies topology
      ensures Valid()
      ensures topology.nodes == old(topology.nodes)[port := NewVertex(name)]
    {
      EnsureSymmetric(topology.nodes, port, name);
      topology.Allocate(port, name);
      topology.AddVertex(port);
    }

    /** `setupnodes`: every configured neighbour becomes a vertex joined to this router. */
    method SetupNodes()
      requires Valid() && udpPort in topology.nodes
      requires forall nb :: nb in neighbors ==> nb.port !in topology.nodes
      modifies topology
      ensures Valid()
      ensures Linked(udpPort, old(topology.nodes), topology.nodes, neighbors)
    {
      ghost var nodes0 := topology.nodes;
      var rest := neighbors;
      while rest != {}
        invariant rest <= neighbors
        invariant Valid()
        invariant Linked(udpPort, nodes0, topology.nodes, neighbors - rest)
        decreases rest
      {
        ghost var _ := NonEmptyHasMember(rest);
        var nb :| nb in rest;
        LinkedStep(udpPort, nodes0, topology.nodes, neighbors - rest, nb, neighbors);
        JoinNeighbor(nb);
        assert neighbors - (rest - {nb}) == (neighbors - rest) + {nb};
        rest := rest - {nb};
      }
    }

    /** The body of `setupnodes`' loop for one neighbour. */
    method JoinNeighbor(nb: Link)
      requires Valid() && udpPort in topology.nodes && nb.port !in topology.nodes
      modifies topology
      ensures Valid()
      ensures topology.nodes == Joined(old(topology.nodes), udpPort, nb)
    {
      JoinedSymmetric(topology.nodes, udpPort, nb);
      Add(nb.name, nb.port);
      topology.AddNear(nb.port, udpPort, nb.weight);
      topology.AddNear(udpPort, nb.port, nb.weight);
    }

    /**
     * `lsp`: this router's advertisement at time `now`, listing each
     * configured neighbour once, in the order the set is walked.
     */
    method Lsp(now: int) returns (msg: string)
      ensures exists order :: Listing(order, neighbors) && msg == AdvertText(HOP_LIMIT, now, routerName, udpPort, order)
    {
      ghost var header: seq<string> := [];
      var result := "";
      assert result == Terminated(header, ',');
      var field := IntToString(HOP_LIMIT);
      TerminatedAppend(header, field, ',');
      result, header := result + field + ",", header + [field];
      field := IntToString(now);
      TerminatedAppend(header, field, ',');
      result, header := result + field + ",", header + [field];
      field := routerName;
      TerminatedAppend(header, field, ',');
      result, header := result + field + ",", header + [field];
      field := IntToString(udpPort);
      TerminatedAppend(header, field, ',');
      result, header := result + field + ",", header + [field];
      assert header == [IntToString(HOP_LIMIT), IntToString(now), routerName, IntToString(udpPort)];
      var rest := neighbors;
      ghost var order: seq<Link> := [];
      assert header + LinkFields(order) == header;
      while rest != {}
        invariant rest <= neighbors
        invariant Listing(order, neighbors - rest)
        invariant result == Terminated(header + LinkFields(order), ',')
        decreases rest
      {
        ghost var _ := NonEmptyHasMember(rest);
        var nb :| nb in rest;
        var nei := nb.name + " " + IntToString(nb.weight) + " " + IntToString(nb.port);
        TerminatedAppend(header + LinkFields(order), nei, ',');
        assert header + LinkFields(order + [nb]) == header + LinkFields(order) + [nei];
        result := result + nei + ",";
        order := order + [nb];
        rest := rest - {nb};
      }
      TerminatedIsJoin(header + LinkFields(order), ',');
      assert neighbors - rest == neighbors;
      msg := result[..|result| - 1];
      assert msg == AdvertText(HOP_LIMIT, now, routerName, udpPort, order);
    }

    /**
     * `read_lsp`: merges the advertisement into the topology and returns
     * the copy to pass on, with the hop limit one lower.
     */
    method ReadLsp(msg: string) returns (out: string)
      requires Valid() && Parse(msg).Some?
      modifies topology
      ensures Valid()
      ensures topology.nodes == Merge(old(topology.nodes), Parse(msg).value)
      ensures out == Forwarded(msg)
    {
      var data := Split(msg, ',');
      ghost var a := Parse(msg).value;
      var ttl := ParseInt(data[0]).value - 1;
      var fromPort := ParseInt(data[3]).value;
      var fromName := data[2];
      if fromPort !in topology.nodes {
        Add(fromName, fromPort);
      }
      ghost var nodes1 := topology.nodes;
      assert nodes1 == Ensure(old(topology.nodes), a.port, a.name);
      ghost var links := a.links;
      assert MergeLinks(nodes1, fromPort, links[..0]) == nodes1;
      var i := 4;
      while i < |data|
        invariant 4 <= i <= |data| == |links| + 4
        invariant Valid() && fromPort in topology.nodes
        invariant topology.nodes == MergeLinks(nodes1, fromPort, links[..i - 4])
      {
        LinkFieldAt(msg, i);
        var nei := Split(data[i], ' ');
        var name := nei[0];
        var weight := ParseInt(nei[1]).value;
        var port := ParseInt(nei[2]).value;
        assert Link(name, weight, port) == links[i - 4];
        AddLink(fromPort, Link(name, weight, port));
        MergeLinksSnoc(nodes1, fromPort, links, i - 4);
        i := i + 1;
      }
      assert links[..i - 4] == links;
      ghost var fields := data;
      data := data[0 := IntToString(ttl)];
      out := Join(data, ',');
      assert out == Forwarded(msg) by {
        ForwardedText(msg, fields, ttl);
      }
    }

    /** One pass of `read_lsp`'s loop: `l`'s port gets a vertex if it has none and is joined to `origin`. */
    method AddLink(origin: int, l: Link)
      requires Valid() && origin in topology.nodes
      modifies topology
      ensures Valid()
      ensures topology.nodes == MergeLink(old(topology.nodes), origin, l)
    {
      EnsureSymmetric(topology.nodes, l.port, l.name);
      ConnectSymmetric(Ensure(topology.nodes, l.port, l.name), origin, l.port, l.weight);
      if l.port !in topology.nodes {
        Add(l.name, l.port);
      }
      topology.AddNear(origin, l.port, l.weight);
      topology.AddNear(l.port, origin, l.weight);
    }

    /** `send_lsp`: hands `msg` to the socket for `port` unless its hop limit has run out. */
    method SendLsp(port: int, msg: string)
      requires ParseInt(Split(msg, ',')[0]).Some?
      modifies this`outbox
      ensures outbox == old(outbox) + if ParseInt(Split(msg, ',')[0]).value > 0 then [Packet(port, msg)] else []
    {
      var ttl := Split(msg, ',')[0];
      if ParseInt(ttl).value > 0 {
        outbox := outbox + [Packet(port, msg)];
      }
    }

    /**
     * `flood`: records the advertisement's timestamp and, if it is newer
     * than any seen from its originator, sends it to every neighbour but
     * the originator, each once, provided its hop limit is positive.
     */
    method Flood(msg: string)
      requires Valid() && Floodable(msg)
      modifies this`deadLsps, this`outbox
      ensures Valid()
      ensures deadLsps == Record(old(deadLsps), OriginOf(msg), Stamp(msg).value)
      ensures SentAfter(old(outbox), outbox,
        if IsFresh(old(deadLsps), OriginOf(msg), Stamp(msg).value) && TtlOf(msg) > 0
        then Targets(neighbors, OriginOf(msg)) else {}, msg)
    {
      var data := Split(msg, ',');
      var fromPort := ParseInt(data[3]).value;
      var stamp := ParseInt(data[1]).value;
      ghost var out0 := outbox;
      if fromPort !in deadLsps {
        deadLsps := deadLsps[fromPort := 0];
      }
      if deadLsps[fromPort] < stamp {
        deadLsps := deadLsps[fromPort := stamp];
        ghost var dead1 := deadLsps;
        ghost var on := TtlOf(msg) > 0;
        var rest := neighbors;
        ghost var sent: seq<Packet> := [];
        while rest != {}
          invariant rest <= neighbors && deadLsps == dead1
          invariant outbox == out0 + sent
          invariant Broadcast(sent, if on then Targets(neighbors - rest, fromPort) else {}, msg)
          decreases rest
        {
          ghost var _ := NonEmptyHasMember(rest);
          var nd :| nd in rest;
          ghost var done := neighbors - rest;
          var toPort := nd.port;
          if fromPort != toPort {
            SendLsp(toPort, msg);
          }
          rest := rest - {nd};
          assert neighbors - rest == done + {nd};
          if on && fromPort != toPort {
            assert toPort !in Targets(done, fromPort);
            BroadcastAppend(sent, Targets(done, fromPort), toPort, msg);
            sent := sent + [Packet(toPort, msg)];
            assert Targets(done + {nd}, fromPort) == Targets(done, fromPort) + {toPort};
          } else {
            assert on ==> Targets(done + {nd}, fromPort) == Targets(done, fromPort);
          }
        }
        assert neighbors - rest == neighbors;
        assert outbox[|out0|..] == sent;
      } else {
        assert outbox[|out0|..] == [];
      }
    }

    /**
     * A message arriving in the main loop: `read_lsp` merges it, then the
     * copy with the lower hop limit is flooded. A message that arrives with
     * a hop limit of 1 or less is merged but sent nowhere.
     */
    method Receive(msg: string)
      requires Valid() && Parse(msg).Some? && Stamp(msg).Some?
      modifies this, topology
      ensures Valid()
      ensures topology.nodes == Merge(old(topology.nodes), Parse(msg).value)
      ensures deadLsps == Record(old(deadLsps), Parse(msg).value.port, Stamp(msg).value)
      ensures SentAfter(old(outbox), outbox,
        if IsFresh(old(deadLsps), Parse(msg).value.port, Stamp(msg).value) && Parse(msg).value.ttl > 1
        then Targets(neighbors, Parse(msg).value.port) else {}, Forwarded(msg))
    {
      var data := ReadLsp(msg);
      ForwardedParse(msg);
      ParsedFloodable(data);
      Flood(data);
    }

    /**
     * `self.flood(self.lsp())`: this router's advertisement at time `now`
     * is recorded as the newest from this router and sent to every
     * neighbour that has not already had one as new.
     */
    method Advertise(now: int) returns (own: string)
      requires Valid() && ',' !in routerName
      modifies this`deadLsps, this`outbox
      ensures Valid()
      ensures exists order :: Listing(order, neighbors) && own == AdvertText(HOP_LIMIT, now, routerName, udpPort, order)
      ensures deadLsps == Record(old(deadLsps), udpPort, now)
      ensures SentAfter(old(outbox), outbox, if IsFresh(old(deadLsps), udpPort, now) then PortsOf(neighbors) else {}, own)
    {
      own := Lsp(now);
      ghost var order :| Listing(order, neighbors) && own == AdvertText(HOP_LIMIT, now, routerName, udpPort, order);
      ghost var data := Split(own, ',');
      assert data[0] == IntToString(HOP_LIMIT) && data[1] == IntToString(now) && data[3] == IntToString(udpPort) by {
        assert data[..4] == [IntToString(HOP_LIMIT), IntToString(now), routerName, IntToString(udpPort)];
        assert data[0] == data[..4][0] && data[1] == data[..4][1] && data[3] == data[..4][3];
      }
      IntRoundTrip(HOP_LIMIT);
      IntRoundTrip(now);
      IntRoundTrip(udpPort);
      assert OriginOf(own) == udpPort && Stamp(own) == Some(now);
      Flood(own);
      assert Targets(neighbors, udpPort) == PortsOf(neighbors);
    }

    /** The packets a received message adds in a pass: its forwarded copy, flooded. */
    ghost predicate Relayed(before: seq<Packet>, after: seq<Packet>, dead: map<int, int>, received: Option<string>)
      requires received.Some? ==> Parse(received.value).Some? && Stamp(received.value).Some?
    {
      if received.None? then after == before
      else
        var a := Parse(received.value).value;
        SentAfter(before, after,
          if IsFresh(dead, a.port, Stamp(received.value).value) && a.ttl > 1 then Targets(neighbors, a.port) else {},
          Forwarded(received.value))
    }

    /**
     * The packets this router's own advertisement adds in a pass: when it is
     * due, the advertisement at `now` goes to every neighbour if it is fresh.
     */
    ghost predicate Announced(before: seq<Packet>, after: seq<Packet>, dead: map<int, int>, now: int, due: bool) {
      if !due then after == before
      else exists own :: OwnAdvert(own, now) && SentAfter(before, after, if IsFresh(dead, udpPort, now) then PortsOf(neighbors) else {}, own)
    }

    /** `own` is an advertisement `lsp` may produce at `now`: each neighbour listed once, in some order. */
    ghost predicate OwnAdvert(own: string, now: int) {
      exists order :: Listing(order, neighbors) && own == AdvertText(HOP_LIMIT, now, routerName, udpPort, order)
    }

    /**
     * One pass of `mainloop` at time `now`, given what the socket
     * delivered: merge and flood the message, flood this router's own
     * advertisement when `update` is due, and run `dijkstra` as written when
     * `updateRoute` is due. Returns the two deadlines for the next pass.
     */
    method Step(received: Option<string>, now: int, update: int, updateRoute: int) returns (nextUpdate: int, nextRoute: int)
      requires Valid() && ',' !in routerName
      requires received.Some? ==> Parse(received.value).Some? && Stamp(received.value).Some?
      modifies this, topology
      ensures Valid()
      ensures nextUpdate == if now >= update then update + UPDATE_INTERVAL else update
      ensures nextRoute == if now >= updateRoute then updateRoute + ROUTE_UPDATE_INTERVAL else updateRoute
      ensures deadLsps ==
        if now >= update then Record(HeardFrom(old(deadLsps), received), udpPort, now)
        else HeardFrom(old(deadLsps), received)
      ensures exists mid ::
        && Relayed(old(outbox), mid, old(deadLsps), received)
        && Announced(mid, outbox, HeardFrom(old(deadLsps), received), now, now >= update)
      ensures now < updateRoute ==> topology.nodes == MergedWith(old(topology.nodes), received)
      ensures now >= updateRoute ==> SameShape(topology.nodes, MergedWith(old(topology.nodes), received))
      ensures now >= updateRoute && FirstRun(MergedWith(old(topology.nodes), received), topology.nodes.Keys, udpPort) ==>
        ShortestPathTree(topology.nodes, udpPort) && AllReached(topology.nodes)
    {
      ghost var dead0 := deadLsps;
      ghost var out0 := outbox;
      if received.Some? {
        Receive(received.value);
      }
      ghost var mid := outbox;
      ghost var dead1 := deadLsps;
      assert Relayed(out0, mid, dead0, received);
      if now >= update {
        var own := Advertise(now);
        assert OwnAdvert(own, now);
        assert SentAfter(mid, outbox, if IsFresh(dead1, udpPort, now) then PortsOf(neighbors) else {}, own);
        nextUpdate := update + UPDATE_INTERVAL;
      } else {
        nextUpdate := update;
      }
      assert Announced(mid, outbox, dead1, now, now >= update);
      if now >= updateRoute {
        ghost var merged := topology.nodes;
        topology.Dijkstra();
        SameShapeSymmetric(topology.nodes, merged);
        nextRoute := updateRoute + ROUTE_UPDATE_INTERVAL;
      } else {
        nextRoute := updateRoute;
      }
    }
  }
}
