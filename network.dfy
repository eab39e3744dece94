/** The road network: edges (immutable values identified by id), nodes (identified by id, with
    a mutable distance label and the adjacency list the search caches on them) and the
    network database, kept as an in-memory graph with a nearest-node oracle. */
module Network {
  import opened Wrappers
  import opened Geometry

  /** An edge of the `*_edges` table; `geometry` is its line string's vertices. The fields are
      the accessors `getId`, `getNode_from`, `getNode_to`, `getLength`, `getGeometry`. */
  datatype Edge = Edge(id: Int32, nodeFrom: Int32, nodeTo: Int32, length: real, geometry: seq<Coord>)

  /** `Edge.equals(o)`: `o` is an Edge (None stands for null or any other class) with the same id. */
  predicate EdgeEquals(e: Edge, o: Option<Edge>)
  {
    o.Some? && o.value.id == e.id
  }

  /** `Edge.hashCode()`: `Objects.hash(id)`, that is `31 * 1 + id` in `int` arithmetic. */
  function EdgeHashCode(e: Edge): (h: Int32)
    ensures Int32Min <= 31 + e.id <= Int32Max ==> h == 31 + e.id
  {
    Wrap32(31 + e.id)
  }

  /** Edge equality is an equivalence that looks at the id only, never matches null, and agrees
      with the hash code -- so a hash set of edges holds one edge per id. */
  lemma EdgeEqualityById(a: Edge, b: Edge, c: Edge)
    ensures EdgeEquals(a, Some(a)) && !EdgeEquals(a, None)
    ensures EdgeEquals(a, Some(b)) <==> a.id == b.id
    ensures EdgeEquals(a, Some(b)) ==> EdgeEquals(b, Some(a))
    ensures EdgeEquals(a, Some(b)) && EdgeEquals(b, Some(c)) ==> EdgeEquals(a, Some(c))
    ensures EdgeEquals(a, Some(b)) ==> EdgeHashCode(a) == EdgeHashCode(b)
  {
  }

  /** The hash code is one-to-one on ids, so distinct ids never collide either. */
  lemma EdgeHashCodeInjective(a: Edge, b: Edge)
    ensures EdgeHashCode(a) == EdgeHashCode(b) <==> a.id == b.id
  {
  }

  /** A node's distance label: a double that starts at positive infinity. */
  datatype Distance = Finite(value: real) | Infinity

  /** `<` on labels, infinity above every finite value. */
  predicate Below(a: real, b: Distance)
  {
    b.Infinity? || a < b.value
  }

  class Node {
    const id: Int32
    const cardinality: Int32
    const geometry: Coord
    /** The label the search updates. */
    var distance: Distance
    /** The adjacency list cached on the node by the search (`getEdges`/`setEdges`); None
        until the first fetch. */
    var edges: Option<seq<Edge>>

    /** A new node: label +infinity, nothing cached. */
    constructor (id: Int32, cardinality: Int32, geometry: Coord)
      ensures this.id == id && this.cardinality == cardinality && this.geometry == geometry
      ensures distance == Infinity && edges == None
    {
      this.id := id;
      this.cardinality := cardinality;
      this.geometry := geometry;
      distance := Infinity;
      edges := None;
    }

    /** `getGeometry`: a copy of the construction coordinate. */
    function GetGeometry(): (c: Coord)
      ensures c == geometry
    {
      Coord(geometry.x, geometry.y)
    }

    /** `equals(o)`: `o` is a Node with the same id; the label plays no part. */
    predicate Equals(o: object?)
    {
      o is Node && (o as Node).id == id
    }

    /** `hashCode`: the id. */
    function HashCode(): (h: Int32)
      ensures h == id
    {
      id
    }

    method SetDistance(d: Distance)
      modifies this
      ensures distance == d && edges == old(edges)
    {
      distance := d;
    }

    method SetEdges(es: seq<Edge>)
      modifies this
      ensures edges == Some(es) && distance == old(distance)
    {
      edges := Some(es);
    }
  }

  /** Node equality is by id whatever the labels, is symmetric and agrees with the hash code;
      null and objects of other classes are never equal to a node. */
  lemma NodeEqualityById(a: Node, b: Node)
    ensures a.Equals(b) <==> a.id == b.id
    ensures a.Equals(b) == b.Equals(a)
    ensures a.Equals(b) ==> a.HashCode() == b.HashCode()
    ensures a.Equals(a) && !a.Equals(null)
  {
  }

  /** A row of the `*_nodes` table. */
  datatype NodeRecord = NodeRecord(cardinality: Int32, geometry: Coord)

  /** The edges with the node at either end, in table order. */
  function IncidentEdges(edges: seq<Edge>, id: Int32): (r: seq<Edge>)
    ensures forall e | e in r :: e in edges && (e.nodeFrom == id || e.nodeTo == id)
    ensures forall e | e in edges && (e.nodeFrom == id || e.nodeTo == id) :: e in r
    ensures |r| <= |edges|
  {
    if edges == [] then []
    else
      (if edges[0].nodeFrom == id || edges[0].nodeTo == id then [edges[0]] else []) + IncidentEdges(edges[1..], id)
  }

  /** The far end of an edge seen from node `u`, as the search picks it: `nodeTo` when the
      edge starts at `u`, `nodeFrom` otherwise. */
  function OtherEnd(e: Edge, u: Int32): Int32
  {
    if e.nodeFrom == u then e.nodeTo else e.nodeFrom
  }

  /** Where a walk from node `s` along the roads `path` ends: each road is left at the end it
      does not share with the walk so far; None when a road does not touch the walk's end. */
  function WalkEnd(path: seq<Edge>, s: Int32): Option<Int32>
  {
    if path == [] then Some(s)
    else
      var u := WalkEnd(path[..|path| - 1], s);
      var e := path[|path| - 1];
      if u.Some? && (e.nodeFrom == u.value || e.nodeTo == u.value) then Some(OtherEnd(e, u.value)) else None
  }

  /** The total length of the roads of a walk. */
  function WalkLength(path: seq<Edge>): real
  {
    if path == [] then 0.0 else WalkLength(path[..|path| - 1]) + path[|path| - 1].length
  }

  /** Some walk over the roads `edges` leads from `s` to `t` and has length `d`. */
  ghost predicate Reaches(edges: seq<Edge>, s: Int32, t: Int32, d: real)
  {
    exists path: seq<Edge> | (forall e | e in path :: e in edges) :: WalkEnd(path, s) == Some(t) && WalkLength(path) == d
  }

  /** One more road at the end of a walk: the walk now ends at the road's far end and is
      longer by the road's length. */
  lemma WalkStep(path: seq<Edge>, s: Int32, e: Edge)
    requires WalkEnd(path, s).Some? && (e.nodeFrom == WalkEnd(path, s).value || e.nodeTo == WalkEnd(path, s).value)
    ensures WalkEnd(path + [e], s) == Some(OtherEnd(e, WalkEnd(path, s).value))
    ensures WalkLength(path + [e]) == WalkLength(path) + e.length
  {
    assert (path + [e])[..|path|] == path;
  }

  /** Every node reaches itself by the empty walk, and a walk from `s` to `u` followed by a
      road at `u` reaches that road's far end. */
  lemma ReachesStep(edges: seq<Edge>, s: Int32, u: Int32, d: real, e: Edge)
    ensures Reaches(edges, s, s, 0.0)
    ensures Reaches(edges, s, u, d) && e in edges && (e.nodeFrom == u || e.nodeTo == u) ==>
              Reaches(edges, s, OtherEnd(e, u), d + e.length)
  {
    var empty: seq<Edge> := [];
    assert WalkEnd(empty, s) == Some(s) && WalkLength(empty) == 0.0;
    if Reaches(edges, s, u, d) && e in edges && (e.nodeFrom == u || e.nodeTo == u) {
      var path :| (forall x | x in path :: x in edges) && WalkEnd(path, s) == Some(u) && WalkLength(path) == d;
      WalkStep(path, s, e);
      assert forall x | x in path + [e] :: x in edges;
    }
  }

  /** A walk over roads of non-negative length is no shorter than its last road. */
  lemma {:induction false} WalkLengthBound(path: seq<Edge>)
    requires forall e | e in path :: e.length >= 0.0
    ensures WalkLength(path) >= 0.0
    ensures path != [] ==> WalkLength(path) >= path[|path| - 1].length
  {
    if path != [] {
      var init := path[..|path| - 1];
      assert forall e | e in init :: e in path;
      WalkLengthBound(init);
    }
  }

  /** The network database: the node and edge tables and the nearest-node query, whose
      distance arithmetic is left to an oracle (`nearest(c, maxDistance)` is the id of the node
      nearest to `c` within `maxDistance`, or None). */
  class NetworkDatabase {
    const nodes: map<Int32, NodeRecord>
    const edges: seq<Edge>
    const nearest: (Coord, real) -> Option<Int32>

    /** Road lengths are not negative, edge ids are the table's primary key, and the
        nearest-node query only answers with stored nodes. */
    ghost predicate Valid()
    {
      && (forall e | e in edges :: e.length >= 0.0)
      && (forall i, j | 0 <= i < j < |edges| :: edges[i].id != edges[j].id)
      && (forall c, d :: nearest(c, d).Some? ==> nearest(c, d).value in nodes)
    }

    constructor (nodes: map<Int32, NodeRecord>, edges: seq<Edge>, nearest: (Coord, real) -> Option<Int32>)
      ensures this.nodes == nodes && this.edges == edges && this.nearest == nearest
    {
      this.nodes := nodes;
      this.edges := edges;
      this.nearest := nearest;
    }

    /** `getNearestNode(c, maxDistance)`: a new node object for the nearest stored node, or null. */
    method GetNearestNode(c: Coord, maxDistance: real) returns (n: Node?)
      requires Valid()
      ensures n == null <==> nearest(c, maxDistance).None?
      ensures n != null ==> fresh(n) && n.id == nearest(c, maxDistance).value && n.id in nodes
      ensures n != null ==> n.geometry == nodes[n.id].geometry && n.cardinality == nodes[n.id].cardinality
      ensures n != null ==> n.distance == Infinity && n.edges == None
    {
      var found := nearest(c, maxDistance);
      if found.None? {
        return null;
      }
      var record := nodes[found.value];
      n := new Node(found.value, record.cardinality, record.geometry);
    }

    /** `getNode(id)`: a new node object; an unknown id makes the query return no row, which
        is an SQLException. */
    method GetNode(id: Int32) returns (r: Result<Node>)
      ensures r.Err? <==> id !in nodes
      ensures r.Err? ==> r.error == SqlException
      ensures r.Ok? ==> fresh(r.value) && r.value.id == id && r.value.geometry == nodes[id].geometry
      ensures r.Ok? ==> r.value.cardinality == nodes[id].cardinality
      ensures r.Ok? ==> r.value.distance == Infinity && r.value.edges == None
    {
      if id !in nodes {
        return Err(SqlException);
      }
      var node := new Node(id, nodes[id].cardinality, nodes[id].geometry);
      r := Ok(node);
    }

    /** `getEdges(node)`: the edges at the node; a node without edges makes the query return
        no row, which is an SQLException. */
    method GetEdges(node: Node) returns (r: Result<seq<Edge>>)
      ensures r.Err? <==> IncidentEdges(edges, node.id) == []
      ensures r.Err? ==> r.error == SqlException
      ensures r.Ok? ==> r.value == IncidentEdges(edges, node.id)
    {
      var incident := IncidentEdges(edges, node.id);
      if incident == [] {
        return Err(SqlException);
      }
      r := Ok(incident);
    }
  }

  /** Edges drawn from the table are equal exactly when their ids are, so a Dafny set of them
      holds what Java's id-hashed `HashSet<Edge>` holds. */
  lemma TableEdgesEqualById(db: NetworkDatabase, a: Edge, b: Edge)
    requires db.Valid()
    requires a in db.edges && b in db.edges
    ensures a == b <==> EdgeEquals(a, Some(b))
  {
    var i :| 0 <= i < |db.edges| && db.edges[i] == a;
    var j :| 0 <= j < |db.edges| && db.edges[j] == b;
    if i < j {
      assert db.edges[i].id != db.edges[j].id;
    } else if j < i {
      assert db.edges[j].id != db.edges[i].id;
    }
  }
}
