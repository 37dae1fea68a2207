# Link-state routing with Dijkstra's algorithm, modelled in Dafny

The system is a small link-state router. Each router is started with a name, a
UDP port and a set of directly connected neighbours (name, edge weight, port).
Every few seconds it floods a link-state advertisement:

    ttl,timestamp,name,port,name1 weight1 port1,name2 weight2 port2,...

Routers that receive an advertisement do three things:
- they merge its links into their view of the network;
- they lower its hop limit;
- they pass it on to every neighbour except the originator (including the
  neighbour that relayed it), unless they have already seen an advertisement
  from that originator with an equal or newer timestamp.

Periodically each router runs Dijkstra's algorithm over its view. The path to
any router can then be read back by following predecessors.

The model covers the graph module (`Dijkstra.py`) and the router class
(`linkstate.py`):

- `dijkstra.dfy`, module `Dijkstra`:
  - `Vertex`/`Node` become a `Vertex` datatype.
  - Vertices are held in an arena `map<int, Vertex>` keyed by port. This port
    is the identity the router uses, and neighbour maps refer to vertices by
    that key.
  - `WeightedGraph` is a class over that arena. `add` and `Vertex.add` are
    methods that make one update each; `_min` and `dijkstra` are methods with
    loops.
  - `shortest_path` is a recursive function.
  - The main proof: on a first run (fresh vertices, positive weights, every
    vertex reachable) `dijkstra` leaves a shortest-path tree. The path
    `shortest_path` spells out is then a path from the source of weight
    `dist`, and no path to the vertex is lighter.
- `text.dfy`, module `Text`: Python's `str.split`, `str.join`, `str(int)` and
  `int(str)` on the text the router exchanges, with their round trips.
- `linkstate_wire.dfy`, module `Wire`: the advertisement format as written by
  `lsp` and read by `read_lsp`, with the round trip between them. Also the
  forwarded copy `read_lsp` returns.
- `linkstate_merge.dfy`, module `Topology`: `read_lsp`'s effect on the
  topology as functions on the arena.
  - It has a closed form, and a merge keeps the table closed.
  - After a merge, the originator and each advertised neighbour are joined in
    both directions; the last link for a port wins.
  - Reading the same advertisement twice changes nothing more.
- `linkstate_fresh.dfy`, module `Freshness`: the `dead_lsps` duplicate filter
  of `flood`. An advertisement is passed on exactly when its timestamp beats
  every earlier one from the same originator.
- `linkstate.dfy`, module `LinkState`: the `Router` class.
  - The topology is a `WeightedGraph` whose vertex set always equals the
    arena's keys, and whose neighbour table stays symmetric: every link is
    recorded at both ends at one weight (`Symmetric`, part of
    `Router.Valid`).
  - `dead_lsps` is a map field.
  - The socket's sends become an `outbox` sequence.
  - `setupnodes`, `lsp`, `read_lsp`, `send_lsp`, `flood` and one pass of
    `mainloop` (`Step`) are methods. Each is proved against the functions
    above.

`wrappers.dfy` (`Option`) and `sets.dfy` (a set that is not empty has a member)
are small helpers.

Where the code and its description disagree, the model follows the code:
- A message whose hop limit has run out (0 or less) is still merged into the
  topology; only its sending is suppressed.
- `flood` inserts a missing `dead_lsps` entry as 0 even when the advertisement
  turns out stale.
- `dijkstra` does not reset distances between runs (see Findings).

## Model

| member | source | states |
|---|---|---|
| Dijkstra.NewVertex | Dijkstra.py:18-21 | a new node has the given name, no neighbours, distance -1 and no predecessor |
| Dijkstra.WeightedGraph.constructor | Dijkstra.py:38-42 | a graph is built from a source and a vertex set that contains the source (the constructor's assertion), over a table in which every neighbour named has a vertex |
| Dijkstra.WeightedGraph.AddVertex | Dijkstra.py:44-45 | `add` puts the vertex into the vertex set and changes nothing else |
| Dijkstra.WeightedGraph.Allocate | Dijkstra.py:18-21 | creating a node for a fresh port adds exactly that fresh vertex to the table |
| Dijkstra.WeightedGraph.AddNear | Dijkstra.py:13-14 | `Vertex.add` sets one entry of one vertex's neighbour map, overwriting an earlier weight, and nothing else |
| Dijkstra.WeightedGraph.Min | Dijkstra.py:64-76 | `_min` returns a member of a non-empty set; when some member is reached it returns a reached member of least distance |
| Dijkstra.RelaxVertex | Dijkstra.py:57-62 | relaxing one edge keeps the neighbour's name and neighbours, leaves it at most the selected distance plus the edge weight, never raises a distance it already had, and when it changes the vertex sets the predecessor to the selected vertex and the distance to that sum; it changes only when that sum is strictly below the old distance or the old distance is negative (a tie keeps the predecessor), and a neighbour with a negative distance always takes the sum and the selected vertex as predecessor, even when the sum is negative |
| Dijkstra.Relaxed | Dijkstra.py:57-62 | relaxing every edge of the selected vertex keeps the table's shape, leaves non-neighbours unchanged, and leaves each neighbour at most the selected distance plus the edge weight |
| Dijkstra.WeightedGraph.Relax | Dijkstra.py:57-62 | relaxing from the selected vertex changes only its neighbours, only their distance and predecessor; a changed vertex has the selected one as predecessor; when relaxing cannot change the selected vertex itself, the result is `Relaxed` of the table before (each neighbour's distance lowered to the selected distance plus the edge weight when that is shorter) |
| Dijkstra.RelaxStep | Dijkstra.py:54-62 | selecting a nearest reached vertex and relaxing its edges keeps the pass invariant (selected vertices settled, reached vertices hanging off selected ones by tight edges) |
| Dijkstra.FrontierReached | Dijkstra.py:54-55 | while a vertex reachable from the source is unselected, some unselected vertex is reached, so `_min` picks a reached one |
| Dijkstra.PassComplete | Dijkstra.py:54 | when no unselected vertex is reached the invariant is a shortest-path tree; when none is left every vertex is reached |
| Dijkstra.Cleared | Dijkstra.py:18-21 | the corrected pass's reset gives every vertex the fresh distance -1 and no predecessor, keeping names and neighbours |
| Dijkstra.SameShapeSymmetric | Dijkstra.py:54-62 | a pass that changes only distances and predecessors keeps a symmetric neighbour table symmetric |
| Dijkstra.WeightedGraph.Dijkstra | Dijkstra.py:47-62 | `dijkstra` changes only distances and predecessors; on a first run (fresh vertices, positive weights, all reachable) it leaves a shortest-path tree with every vertex reached |
| Dijkstra.ShortestPath | Dijkstra.py:23-27 | `shortest_path` ends with the vertex's own name, and is defined whenever the predecessor chain ends |
| Dijkstra.ShortestPathNames | Dijkstra.py:23-27 | `shortest_path` is the concatenation of the names along the predecessor chain, source first |
| Dijkstra.TreeLowerBound | Dijkstra.py:47-62 | in a shortest-path tree, every path from the source ends at a reached vertex and weighs at least its distance |
| Dijkstra.TreeIsShortest | Dijkstra.py:23-27 | in a shortest-path tree over positive weights, for every reached vertex the chain `shortest_path` follows is a path from the source to it of weight exactly its distance, its names are `shortest_path`, and no path to it is lighter |
| Dijkstra.TreeReachedIff | Dijkstra.py:47-62 | in a shortest-path tree over positive weights a vertex has a distance if and only if a path leads to it from the source |
| Dijkstra.UnreachableCycle | Dijkstra.py:57-62 | as written, a run over a source with no edges and a separate pair C–D lets `_min` pick the unreached C; C and D then get distances and become each other's predecessor, so their predecessor chains never end |
| Dijkstra.StaleDistance | Dijkstra.py:47-52 | as written, a second run after an edge weight went from 1 to 5 keeps the old distance 1, and the result is not a shortest-path tree |
| Dijkstra.WeightedGraph.ShortestPaths | Dijkstra.py:47-62 | the corrected pass (not used by the router, which runs `dijkstra` as written): over positive weights, from any prior distances, it leaves a shortest-path tree in which exactly the vertices reachable from the source have distances |
| Dijkstra.ExampleIsFirstRun | Dijkstra.py:81-90 | the test graph (A–B 7, A–C 1, B–C 3) is a first run from A |
| Dijkstra.ExampleTree | Dijkstra.py:91-93 | any shortest-path tree from A over the test graph has A at 0 with no predecessor, B at 4 with path "ACB" and C at 1 with path "AC" |
| Dijkstra.BuildExample | Dijkstra.py:81-90 | the six `add` calls of the test build exactly the test graph |
| Dijkstra.Example | Dijkstra.py:79-93 | running the test block yields A at distance 0 by "A", B at distance 4 by "ACB" and C at distance 1 by "AC" |
| Text.Split | linkstate.py:97 | `split` yields at least one field and no field contains the separator |
| Text.JoinSplit | linkstate.py:97-116 | joining the fields of a split with the same separator gives back the text |
| Text.SplitJoin | linkstate.py:84-97 | splitting a join of separator-free fields gives back the fields |
| Text.Join | linkstate.py:116 | the join of no fields is empty; otherwise its length is the sum of the field lengths plus one separator between each pair |
| Text.IntToString | linkstate.py:84-87 | `str` of an integer starts with a minus sign exactly when the integer is negative, and the rest is a non-empty run of digits |
| Text.ParseInt | linkstate.py:98-99 | `int` reads exactly the texts made of digits, possibly after one minus sign; the value is non-negative without the sign and non-positive with it |
| Text.IntRoundTrip | linkstate.py:98-99 | `int` reads back every integer `str` writes |
| Wire.LinkField | linkstate.py:89 | a neighbour's field, when its name has no space, splits on spaces into the name, `str` of the weight and `str` of the port; it holds a comma only if the name does |
| Wire.AdvertText | linkstate.py:84-91 | the advertisement, when the router's name has no comma, starts with the hop limit, timestamp, name and port fields; when no link name has a comma either, its comma fields are exactly those four followed by one field per link |
| Wire.ParseLink | linkstate.py:106-109 | a link field reads exactly when it has at least three space-separated parts whose second and third are integers; the link's name is the first part, holds no space, and its weight and port are those integers |
| Wire.Parse | linkstate.py:97-109 | a message reads exactly when it has at least four comma fields, the first and fourth are integers and every field from the fifth on reads as a link; the advertisement then carries those values, the raw timestamp field and one link per field, in order |
| Wire.Forwarded | linkstate.py:115-116 | the copy `read_lsp` returns has the same comma fields as the message except the first, which is `str` of the hop limit minus one |
| Wire.ParseLinks | linkstate.py:105-109 | the link fields read exactly when each one reads, one link per field, in order |
| Wire.LinkRoundTrip | linkstate.py:89-109 | a link field as `lsp` writes it reads back as the same link and holds no comma |
| Wire.TerminatedIsJoin | linkstate.py:84-91 | dropping the last separator of "field," repeated is the comma-join of the fields |
| Wire.AdvertRoundTrip | linkstate.py:79-109 | reading an advertisement as `lsp` writes it gives back its hop limit, timestamp, originator and links, in order |
| Wire.ForwardedParse | linkstate.py:115-116 | the copy `read_lsp` returns reads as the same advertisement with the hop limit one lower and the same timestamp |
| Topology.Ensure | linkstate.py:101-102 | a vertex is added only for a port that has none, and no existing vertex changes |
| Topology.MergeLinkJoins | linkstate.py:110-114 | one pass of the loop (`Connect` after an `add` for a new port) joins the originator and the link's port both ways at the link's weight, gives a new port a fresh vertex named as in the link, changes only neighbour maps, keeps every other neighbour entry of the two vertices, and leaves every other vertex as it was |
| Topology.MergeLinks | linkstate.py:105-114 | the loop over the links adds exactly the advertised ports to the table |
| Topology.Merge | linkstate.py:97-114 | `read_lsp` adds exactly the originator and the advertised ports to the table |
| Topology.MergeLinksForm | linkstate.py:105-114 | merging the links gives, vertex by vertex, the old (or fresh) vertex with the links' last writes laid over its neighbour map |
| Topology.MergeRecordsLinks | linkstate.py:105-114 | after a merge, the originator and the neighbour of the last link for each port are joined in both directions at that link's weight |
| Topology.MergeFrame | linkstate.py:101-114 | a merge keeps every vertex's name, distance, predecessor and neighbours (weights may be overwritten), leaves unmentioned vertices untouched, and adds only unvisited vertices |
| Topology.MergeClosed | linkstate.py:101-114 | a merge keeps the table closed: every neighbour named has a vertex |
| Topology.ConnectSymmetric | linkstate.py:113-114 | writing a link at both of its ends keeps a symmetric table symmetric |
| Topology.MergeSymmetric | linkstate.py:97-114 | `read_lsp` keeps the neighbour table symmetric: after a merge, whenever y is a neighbour of x, x is a neighbour of y at the same weight |
| Topology.MergeIdempotent | linkstate.py:97-114 | reading the same advertisement twice leaves the table as reading it once |
| Freshness.IsFresh | linkstate.py:133-135 | an advertisement is fresh exactly when recording it raises its originator's entry, and then the entry becomes its stamp |
| Freshness.Record | linkstate.py:131-137 | `flood`'s update of `dead_lsps` adds the originator's entry, never lowers an entry, touches no other, and leaves the originator at the larger of its old entry and the stamp |
| Freshness.ReplayKnown | linkstate.py:133-137 | after a run of arrivals the entry for an originator is the largest of its initial value and the stamps from it |
| Freshness.AcceptedIff | linkstate.py:133-137 | an arrival is passed on if and only if its stamp beats the initial entry and every earlier stamp from the same originator |
| Freshness.AcceptedIncrease | linkstate.py:135-137 | the advertisements passed on from one originator have strictly increasing stamps |
| Freshness.RepeatDropped | linkstate.py:135 | a repeated advertisement is never passed on again |
| LinkState.ParsedFloodable | linkstate.py:129-132 | a message `read_lsp` can read and whose timestamp is an integer has the fields `flood` and `send_lsp` read, with the same values |
| LinkState.JoinedSymmetric | linkstate.py:73-77 | one pass of `setupnodes`' loop keeps the neighbour table symmetric: the fresh neighbour and the router learn each other at the same weight |
| LinkState.LinkedStep | linkstate.py:67-77 | one pass of `setupnodes`' loop extends the linked table by one neighbour |
| LinkState.Router.constructor | linkstate.py:30-51 | a new router has no `dead_lsps`, has sent nothing, its neighbour table is symmetric, and its topology holds itself and each neighbour joined to it in both directions at the configured weight |
| LinkState.Router.Add | linkstate.py:192-196 | `add` puts a fresh vertex in the table and in the graph's vertex set |
| LinkState.Router.SetupNodes | linkstate.py:65-77 | every configured neighbour gets a fresh vertex whose only neighbour is this router, and this router's vertex gets each neighbour at its weight |
| LinkState.Router.JoinNeighbor | linkstate.py:68-77 | the body of `setupnodes`' loop adds the neighbour and joins it to this router both ways |
| LinkState.Router.Lsp | linkstate.py:79-91 | `lsp` is the comma-join of hop limit 3, the time, name, port and one field per neighbour, each neighbour listed once |
| LinkState.Router.AddLink | linkstate.py:106-114 | one pass of `read_lsp`'s loop is one `MergeLink` on the table |
| LinkState.Router.ReadLsp | linkstate.py:93-117 | `read_lsp` leaves the table as `Merge` of the old one and returns the forwarded copy |
| LinkState.Router.SendLsp | linkstate.py:119-123 | `send_lsp` sends exactly when the hop limit is positive |
| LinkState.Router.Flood | linkstate.py:125-144 | `flood` updates `dead_lsps` by `Record` and, for a fresh advertisement with a positive hop limit, sends it once to each neighbour other than the originator and to no one else; otherwise it sends nothing |
| LinkState.Router.Receive | linkstate.py:156-161 | a received message is merged and its forwarded copy flooded; a message arriving with hop limit 1 or less is merged but sent nowhere |
| LinkState.Router.Advertise | linkstate.py:163-165 | the router's own advertisement is recorded as the newest from it and sent to all its neighbours when fresh |
| LinkState.Router.Step | linkstate.py:155-170 | one pass of the main loop keeps the neighbour table symmetric and moves the two deadlines by 4 and 8 when due; `dead_lsps` becomes exactly the received message's record followed, when the update is due, by the router's own; the outbox becomes the old one, then the forwarded copy to each neighbour but the originator when the message was fresh with a hop limit above 1, then the router's own advertisement to every neighbour when due and fresh; without a route update the topology is exactly the merge; with one, `dijkstra` as written keeps the merged shape and, on a first run, leaves a shortest-path tree with every vertex reached |

## Left out

- Sockets, `select` and `getline` are not modelled. Received messages are a
  parameter of `Step`, sends are appended to `outbox`, and the console "stop"
  condition is replaced by the caller deciding how many passes to run.
- `print` output and `Router.__str__`/`Node.__str__` are left out; they only
  produce text for the console.
- `get_neighbors` (reading the config file) is left out. The neighbour set is
  a constructor parameter. `sys.argv` is replaced the same way: the name and
  port are constructor parameters.
- `time.time()` is a parameter (`now`), and timestamps are integers rather
  than floats: only their order matters to `flood`.
- Text.ParseInt: accepts exactly an optional minus sign followed by digits. It
  is weaker than Python's `int()`, which also allows surrounding spaces, a
  plus sign and underscores; and `float()` timestamps are not modelled.
- LinkState.Router.Flood: requires the hop-limit field to be an integer even
  when nothing is sent. Python reads it only when sending.
- LinkState.Router.constructor: requires neighbours on distinct ports, none
  equal to the router's own. With a duplicate, Python's `add` replaces a
  vertex that already has edges, which the port-keyed arena does not
  represent.
- LinkState.Router.Step: requires a received message to be a readable
  advertisement. Python raises on anything else and the router stops.
- LinkState.Router.Step: runs `dijkstra` as written, so the shortest-path
  tree is promised only when the merged table is a first run; otherwise the
  pass can go wrong as the findings show.
- LinkState.Router.Step and LinkState.Router.Advertise: require the router's
  name to hold no comma. With one, Python's `read_lsp` and `flood` would read
  part of the name as the port.
- Dijkstra.WeightedGraph.Dijkstra: the shortest-path property is stated only
  for a first run (fresh vertices, positive weights, all reachable). Outside
  that case the as-written pass goes wrong, as the findings show.
- Dijkstra.ShortestPath: takes a ghost bound on the predecessor chain and
  requires the chain to end. Python's recursion on a predecessor cycle fails
  with a recursion error instead.
- Python's set and dict iteration order (in `_min`, `setupnodes`, `lsp`,
  `flood`, and the loop over a vertex's neighbours in `dijkstra`,
  Dijkstra.py:57) is modelled as an arbitrary choice, so each result holds for
  every order.

## Findings

| source | as written | input that shows it | evidently intended | confidence | as-written member | corrected member |
|---|---|---|---|---|---|---|
| Dijkstra.py:54-62 | when no unselected vertex is reached, `_min` returns an unreached one and the pass relaxes from it, giving its neighbours distance -1 + weight and itself as predecessor | source A with no edges, plus C and D joined only to each other at weight 1: C and D end at distances 1 and 0, each the other's predecessor, so `shortest_path` never returns | vertices that cannot be reached keep no distance and no predecessor | high; not executed | Dijkstra.UnreachableCycle | Dijkstra.WeightedGraph.ShortestPaths |
| Dijkstra.py:47-52 | a pass sets only the source's distance and keeps every other distance and predecessor from the previous pass | A–B at weight 1 after a first pass (B at 1 behind A), then an advertisement sets the weight to 5: a second pass leaves B at 1 | every pass starts from unvisited vertices | high; not executed | Dijkstra.StaleDistance | Dijkstra.WeightedGraph.ShortestPaths |

Both situations arise in the router. Its view can contain routers that are
not yet linked to it: an advertisement names neighbours the router has not
heard of. Routes are also recomputed over the same vertices every eight
seconds. The corrected pass clears every vertex first and stops at the first
unreached vertex `_min` returns. Over positive weights it is proved to leave a
shortest-path tree covering exactly the reachable vertices, whatever the
previous pass left. The router model itself keeps `dijkstra` as written, so
its route guarantee is limited to a first run.
