/**
 * What `read_lsp` does to the topology table, as functions on the arena
 * `map<int, Vertex>` keyed by port: the originator and every advertised
 * neighbour get a vertex if they have none, and each advertised link is
 * written in both directions, later links overwriting earlier ones.
 */
module Topology {
  import opened Wrappers
  import opened Dijkstra
  import opened Wire

  /** The ports a list of links names. */
  function Ports(links: seq<Link>): (r: set<int>)
    ensures forall i :: 0 <= i < |links| ==> links[i].port in r
    ensures forall p :: p in r ==> exists i :: 0 <= i < |links| && links[i].port == p
    decreases |links|
  {
    if |links| == 0 then {}
    else
      var ps := Ports(links[..|links| - 1]);
      assert forall i :: 0 <= i < |links| - 1 ==> links[..|links| - 1][i] == links[i];
      ps + {links[|links| - 1].port}
  }

  /** A vertex for `port` named `name` unless one is there already (`add` behind a membership test). */
  function Ensure(nodes: map<int, Vertex>, port: int, name: string): (r: map<int, Vertex>)
    ensures r.Keys == nodes.Keys + {port}
    ensures forall id :: id in nodes ==> r[id] == nodes[id]
    ensures port !in nodes ==> r[port] == NewVertex(name)
  {
    if port in nodes then nodes else nodes[port := NewVertex(name)]
  }

  /** The two `Vertex.add` calls of one link: `a` learns `b` and `b` learns `a`, at weight `w`. */
  function Connect(nodes: map<int, Vertex>, a: int, b: int, w: int): map<int, Vertex>
    requires a in nodes && b in nodes
  {
    var n1 := nodes[a := nodes[a].(nears := nodes[a].nears[b := w])];
    n1[b := n1[b].(nears := n1[b].nears[a := w])]
  }

  /** One pass of the loop in `read_lsp`. */
  function MergeLink(nodes: map<int, Vertex>, origin: int, l: Link): map<int, Vertex>
    requires origin in nodes
  {
    Connect(Ensure(nodes, l.port, l.name), origin, l.port, l.weight)
  }

  /** The loop of `read_lsp` over the links, in message order. */
  function MergeLinks(nodes: map<int, Vertex>, origin: int, links: seq<Link>): (r: map<int, Vertex>)
    requires origin in nodes
    ensures r.Keys == nodes.Keys + Ports(links)
    decreases |links|
  {
    if |links| == 0 then nodes
    else MergeLink(MergeLinks(nodes, origin, links[..|links| - 1]), origin, links[|links| - 1])
  }

  lemma MergeLinksSnoc(nodes: map<int, Vertex>, origin: int, links: seq<Link>, k: int)
    requires origin in nodes && 0 <= k < |links|
    ensures MergeLinks(nodes, origin, links[..k + 1]) == MergeLink(MergeLinks(nodes, origin, links[..k]), origin, links[k])
  {
    assert links[..k + 1][..k] == links[..k];
  }

  /** All of `read_lsp`'s effect on the table. */
  function Merge(nodes: map<int, Vertex>, a: Advert): (r: map<int, Vertex>)
    ensures r.Keys == nodes.Keys + {a.port} + Ports(a.links)
  {
    MergeLinks(Ensure(nodes, a.port, a.name), a.port, a.links)
  }

  // ---------------------------------------------------------------------
  // Closed form.
  // ---------------------------------------------------------------------

  /** Vertex `id`'s adjacency after joining `a` and `b` at weight `w`. */
  function Write(m: map<int, int>, id: int, a: int, b: int, w: int): map<int, int> {
    var m1 := if id == a then m[b := w] else m;
    if id == b then m1[a := w] else m1
  }

  /** The adjacency entries the links write into vertex `id`, the last write to a key winning. */
  function Updates(origin: int, links: seq<Link>, id: int): map<int, int>
    decreases |links|
  {
    if |links| == 0 then map[]
    else
      var l := links[|links| - 1];
      Write(Updates(origin, links[..|links| - 1], id), id, origin, l.port, l.weight)
  }

  /** The name of the first link naming `id`: the name its vertex gets if it is new. */
  function FirstName(links: seq<Link>, id: int): string
    requires id in Ports(links)
    decreases |links|
  {
    var ps := links[..|links| - 1];
    if id in Ports(ps) then FirstName(ps, id) else links[|links| - 1].name
  }

  /** The vertex `id` has before the links' adjacency entries are written. */
  function Base(nodes: map<int, Vertex>, links: seq<Link>, id: int): Vertex
    requires id in nodes.Keys + Ports(links)
  {
    if id in nodes then nodes[id] else NewVertex(FirstName(links, id))
  }

  /** The table after merging the links, vertex by vertex. */
  function MergedForm(nodes: map<int, Vertex>, origin: int, links: seq<Link>): map<int, Vertex> {
    map id | id in nodes.Keys + Ports(links) ::
      Base(nodes, links, id).(nears := Base(nodes, links, id).nears + Updates(origin, links, id))
  }

  lemma ConnectAt(nodes: map<int, Vertex>, a: int, b: int, w: int, id: int)
    requires a in nodes && b in nodes && id in nodes
    ensures Connect(nodes, a, b, w)[id] == nodes[id].(nears := Write(nodes[id].nears, id, a, b, w))
  {
  }

  /**
   * One pass of `read_lsp`'s loop joins the originator and the link's port
   * both ways at the link's weight, gives a new port a fresh vertex named
   * as in the link, keeps every other neighbour entry of the two, and leaves
   * every other vertex as it was.
   */
  lemma MergeLinkJoins(nodes: map<int, Vertex>, origin: int, l: Link)
    requires origin in nodes
    ensures var r := MergeLink(nodes, origin, l);
      && r.Keys == nodes.Keys + {l.port}
      && r[origin].nears[l.port] == l.weight && r[l.port].nears[origin] == l.weight
      && (l.port !in nodes ==> r[l.port].name == l.name && r[l.port].dist < 0 && r[l.port].prev.None?)
      && (forall id | id in nodes :: r[id] == nodes[id].(nears := r[id].nears))
      && (forall id | id in nodes && id != origin && id != l.port :: r[id] == nodes[id])
      && (forall k | k in nodes[origin].nears && k != l.port :: r[origin].nears[k] == nodes[origin].nears[k])
      && (forall k | l.port in nodes && k in nodes[l.port].nears && k != origin :: r[l.port].nears[k] == nodes[l.port].nears[k])
  {
    var n1 := Ensure(nodes, l.port, l.name);
    forall id | id in n1
      ensures MergeLink(nodes, origin, l)[id] == n1[id].(nears := Write(n1[id].nears, id, origin, l.port, l.weight))
    {
      ConnectAt(n1, origin, l.port, l.weight, id);
    }
  }

  lemma WriteUnion(m: map<int, int>, u: map<int, int>, id: int, a: int, b: int, w: int)
    ensures Write(m + u, id, a, b, w) == m + Write(u, id, a, b, w)
  {
    if id == a && id == b {
      assert (m + u)[b := w][a := w] == m + u[b := w][a := w];
    } else if id == a {
      assert (m + u)[b := w] == m + u[b := w];
    } else if id == b {
      assert (m + u)[a := w] == m + u[a := w];
    }
  }

  lemma MergeStepAt(nodes: map<int, Vertex>, origin: int, links: seq<Link>, id: int)
    requires origin in nodes && |links| > 0
    requires id in nodes.Keys + Ports(links)
    ensures var ps := links[..|links| - 1]; var l := links[|links| - 1];
      var e := Ensure(MergedForm(nodes, origin, ps), l.port, l.name);
      Connect(e, origin, l.port, l.weight)[id] == MergedForm(nodes, origin, links)[id]
  {
    var ps := links[..|links| - 1];
    var l := links[|links| - 1];
    var h := MergedForm(nodes, origin, ps);
    var e := Ensure(h, l.port, l.name);
    ConnectAt(e, origin, l.port, l.weight, id);
    var b := Base(nodes, links, id);
    if id in nodes.Keys + Ports(ps) {
      assert Base(nodes, ps, id) == b;
      assert e[id] == b.(nears := b.nears + Updates(origin, ps, id));
    } else {
      UpdatesKeys(origin, ps, id);
      assert e[id] == NewVertex(l.name);
      assert b.nears == map[];
      assert map[] + Updates(origin, ps, id) == Updates(origin, ps, id);
      assert e[id] == b.(nears := b.nears + Updates(origin, ps, id));
    }
    WriteUnion(b.nears, Updates(origin, ps, id), id, origin, l.port, l.weight);
  }

  lemma FormAt(nodes: map<int, Vertex>, origin: int, links: seq<Link>, id: int)
    requires id in nodes.Keys + Ports(links)
    ensures id in MergedForm(nodes, origin, links)
    ensures MergedForm(nodes, origin, links)[id]
      == Base(nodes, links, id).(nears := Base(nodes, links, id).nears + Updates(origin, links, id))
  {
  }

  lemma {:induction false} MergeLinksForm(nodes: map<int, Vertex>, origin: int, links: seq<Link>)
    requires origin in nodes
    ensures MergeLinks(nodes, origin, links) == MergedForm(nodes, origin, links)
    decreases |links|
  {
    var r := MergeLinks(nodes, origin, links);
    var f := MergedForm(nodes, origin, links);
    assert f.Keys == nodes.Keys + Ports(links);
    if |links| == 0 {
      forall id | id in nodes
        ensures f[id] == nodes[id]
      {
        FormAt(nodes, origin, links, id);
        assert nodes[id].nears + map[] == nodes[id].nears;
      }
    } else {
      var ps := links[..|links| - 1];
      var l := links[|links| - 1];
      MergeLinksForm(nodes, origin, ps);
      assert r == Connect(Ensure(MergedForm(nodes, origin, ps), l.port, l.name), origin, l.port, l.weight);
      forall id | id in f
        ensures r[id] == f[id]
      {
        MergeStepAt(nodes, origin, links, id);
      }
    }
  }

  /** The adjacency entries the links write go only to the originator or an advertised port. */
  lemma {:induction false} UpdatesKeys(origin: int, links: seq<Link>, id: int)
    ensures Updates(origin, links, id).Keys <= {origin} + Ports(links)
    ensures id != origin && id !in Ports(links) ==> Updates(origin, links, id) == map[]
    decreases |links|
  {
    if |links| > 0 {
      UpdatesKeys(origin, links[..|links| - 1], id);
    }
  }

  /** Whether `links[i]` is the last link in the message for its port. */
  predicate LastFor(links: seq<Link>, i: int)
    requires 0 <= i < |links|
  {
    forall j :: i < j < |links| ==> links[j].port != links[i].port
  }

  lemma {:induction false} UpdatesLast(origin: int, links: seq<Link>, i: int)
    requires 0 <= i < |links| && LastFor(links, i)
    ensures links[i].port in Updates(origin, links, origin)
    ensures Updates(origin, links, origin)[links[i].port] == links[i].weight
    ensures origin in Updates(origin, links, links[i].port)
    ensures Updates(origin, links, links[i].port)[origin] == links[i].weight
    decreases |links|
  {
    if i < |links| - 1 {
      var ps := links[..|links| - 1];
      assert ps[i] == links[i];
      UpdatesLast(origin, ps, i);
    }
  }

  // ---------------------------------------------------------------------
  // What a merge promises.
  // ---------------------------------------------------------------------

  /**
   * After a merge, the originator and the neighbour of the last link for
   * each advertised port are joined in both directions at that link's
   * weight.
   */
  lemma MergeRecordsLinks(nodes: map<int, Vertex>, a: Advert, i: int)
    requires 0 <= i < |a.links| && LastFor(a.links, i)
    ensures var r := Merge(nodes, a); var l := a.links[i];
      && l.port in r[a.port].nears && r[a.port].nears[l.port] == l.weight
      && a.port in r[l.port].nears && r[l.port].nears[a.port] == l.weight
  {
    var e := Ensure(nodes, a.port, a.name);
    MergeLinksForm(e, a.port, a.links);
    UpdatesLast(a.port, a.links, i);
  }

  /**
   * A merge keeps every vertex already present, with its name, distance,
   * predecessor and neighbours (a weight may be overwritten, no edge is
   * dropped), and leaves every vertex the advertisement does not mention
   * exactly as it was. New vertices start unvisited.
   */
  lemma MergeFrame(nodes: map<int, Vertex>, a: Advert)
    ensures var r := Merge(nodes, a);
      && (forall id :: id in nodes ==>
            && r[id].name == nodes[id].name && r[id].dist == nodes[id].dist && r[id].prev == nodes[id].prev
            && nodes[id].nears.Keys <= r[id].nears.Keys)
      && (forall id :: id in nodes && id != a.port && id !in Ports(a.links) ==> r[id] == nodes[id])
      && (forall id :: id in r && id !in nodes ==> r[id].dist < 0 && r[id].prev == None)
  {
    var e := Ensure(nodes, a.port, a.name);
    MergeLinksForm(e, a.port, a.links);
    forall id | id in nodes && id != a.port && id !in Ports(a.links)
      ensures Merge(nodes, a)[id] == nodes[id]
    {
      UpdatesKeys(a.port, a.links, id);
      assert nodes[id].nears + map[] == nodes[id].nears;
    }
  }

  /** A merge keeps the table closed: every neighbour named has a vertex. */
  lemma MergeClosed(nodes: map<int, Vertex>, a: Advert)
    requires Closed(nodes)
    ensures Closed(Merge(nodes, a))
  {
    var e := Ensure(nodes, a.port, a.name);
    MergeLinksForm(e, a.port, a.links);
    var r := Merge(nodes, a);
    forall id | id in r
      ensures r[id].nears.Keys <= r.Keys
    {
      UpdatesKeys(a.port, a.links, id);
    }
  }

  /** Adding a vertex with no neighbours keeps the table symmetric. */
  lemma EnsureSymmetric(nodes: map<int, Vertex>, port: int, name: string)
    requires Symmetric(nodes)
    ensures Symmetric(Ensure(nodes, port, name))
  {
  }

  /** Writing a link at both of its ends keeps the table symmetric. */
  lemma ConnectSymmetric(nodes: map<int, Vertex>, a: int, b: int, w: int)
    requires a in nodes && b in nodes && Symmetric(nodes)
    ensures Symmetric(Connect(nodes, a, b, w))
  {
    var r := Connect(nodes, a, b, w);
    forall x, y | x in r && y in r[x].nears
      ensures y in r && x in r[y].nears && r[y].nears[x] == r[x].nears[y]
    {
      ConnectAt(nodes, a, b, w, x);
      assert y in nodes[x].nears || y == a || y == b;
      ConnectAt(nodes, a, b, w, y);
    }
  }

  lemma {:induction false} MergeLinksSymmetric(nodes: map<int, Vertex>, origin: int, links: seq<Link>)
    requires origin in nodes && Symmetric(nodes)
    ensures Symmetric(MergeLinks(nodes, origin, links))
    decreases |links|
  {
    if |links| > 0 {
      var l := links[|links| - 1];
      var m := MergeLinks(nodes, origin, links[..|links| - 1]);
      MergeLinksSymmetric(nodes, origin, links[..|links| - 1]);
      EnsureSymmetric(m, l.port, l.name);
      ConnectSymmetric(Ensure(m, l.port, l.name), origin, l.port, l.weight);
    }
  }

  /**
   * A merge keeps the table symmetric: `read_lsp` writes every link at both
   * of its ends, so a neighbour of a neighbour is always back at the same
   * weight.
   */
  lemma MergeSymmetric(nodes: map<int, Vertex>, a: Advert)
    requires Symmetric(nodes)
    ensures Symmetric(Merge(nodes, a))
  {
    EnsureSymmetric(nodes, a.port, a.name);
    MergeLinksSymmetric(Ensure(nodes, a.port, a.name), a.port, a.links);
  }

  /** Merging the same links a second time changes nothing. */
  lemma FormTwice(nodes: map<int, Vertex>, origin: int, links: seq<Link>)
    ensures MergedForm(MergedForm(nodes, origin, links), origin, links) == MergedForm(nodes, origin, links)
  {
    var h := MergedForm(nodes, origin, links);
    var r := MergedForm(h, origin, links);
    assert h.Keys == nodes.Keys + Ports(links);
    assert r.Keys == h.Keys;
    forall id | id in h
      ensures r[id] == h[id]
    {
      FormAt(nodes, origin, links, id);
      FormAt(h, origin, links, id);
      var b := Base(nodes, links, id);
      var u := Updates(origin, links, id);
      assert Base(h, links, id) == h[id];
      assert (b.nears + u) + u == b.nears + u;
    }
  }

  /** Reading the same advertisement twice leaves the table as reading it once. */
  lemma MergeIdempotent(nodes: map<int, Vertex>, a: Advert)
    ensures Merge(Merge(nodes, a), a) == Merge(nodes, a)
  {
    var e := Ensure(nodes, a.port, a.name);
    var h := Merge(nodes, a);
    MergeLinksForm(e, a.port, a.links);
    assert Ensure(h, a.port, a.name) == h;
    MergeLinksForm(h, a.port, a.links);
    FormTwice(e, a.port, a.links);
  }
}
