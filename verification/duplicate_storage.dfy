/** The duplicate graph of src/Storage/DuplicateStorage.py: images known as
    duplicates of each other, stored as nodes with integer ids and an
    association table of (left, right) id pairs. `add_duplicate(orig, dup)`
    records the pair as (left = dup, right = orig). The relation is read
    back in both directions, so it is symmetric, but it is not closed under
    transitivity. */
module DuplicateStorage {
  import opened Wrappers
  import Rows

  /** A `duplicate_image` row; its id is its position in the table plus one. */
  datatype Node = Node(fullpath: string, dataclass: string, getter: string)

  /** The two tables: `nodes[i]` has id `i + 1`; `edges` holds the
      `image_to_image` rows as (left_image_id, right_image_id). */
  datatype Graph = Graph(nodes: seq<Node>, edges: seq<(nat, nat)>)

  /** Paths are unique, every edge joins two stored ids, and no edge is
      stored twice (the table's primary key). */
  ghost predicate UniquePaths(nodes: seq<Node>) {
    forall i, j :: 0 <= i < j < |nodes| ==> nodes[i].fullpath != nodes[j].fullpath
  }

  ghost predicate Valid(g: Graph) {
    && UniquePaths(g.nodes)
    && (forall k :: 0 <= k < |g.edges| ==> 1 <= g.edges[k].0 <= |g.nodes| && 1 <= g.edges[k].1 <= |g.nodes|)
    && Rows.NoDuplicates(g.edges)
  }

  /** `select(DuplicateImage).where(fullpath == path)`: the id of the first
      node with that path. */
  function IdOf(nodes: seq<Node>, path: string): (r: Option<nat>)
    ensures r.None? <==> forall i :: 0 <= i < |nodes| ==> nodes[i].fullpath != path
    ensures r.Some? ==> 1 <= r.value <= |nodes| && nodes[r.value - 1].fullpath == path
    ensures r.Some? ==> forall i :: 0 <= i < r.value - 1 ==> nodes[i].fullpath != path
  {
    if |nodes| == 0 then None
    else if nodes[0].fullpath == path then Some(1)
    else
      match IdOf(nodes[1..], path)
      case None => None
      case Some(k) => Some(k + 1)
  }

  /** In a table of unique paths, a node's path finds exactly that node. */
  lemma IdOfUnique(nodes: seq<Node>, i: nat)
    requires i < |nodes|
    requires UniquePaths(nodes)
    ensures IdOf(nodes, nodes[i].fullpath) == Some(i + 1)
  {
    var r := IdOf(nodes, nodes[i].fullpath);
    assert r.Some? by {
      assert nodes[i].fullpath == nodes[i].fullpath;
    }
    assert r.value - 1 >= i;
  }

  lemma IdOfFound(nodes: seq<Node>, i: nat)
    requires i < |nodes|
    ensures IdOf(nodes, nodes[i].fullpath).Some?
  {
  }

  /** Appending a node leaves the ids of the old paths as they were. */
  lemma {:induction false} IdOfAppend(nodes: seq<Node>, n: Node, path: string)
    ensures IdOf(nodes + [n], path) ==
      if IdOf(nodes, path).Some? then IdOf(nodes, path)
      else if n.fullpath == path then Some(|nodes| + 1)
      else None
  {
    var m := nodes + [n];
    if |nodes| == 0 {
      assert m == [n];
    } else {
      assert m[0] == nodes[0];
      if nodes[0].fullpath != path {
        assert m[1..] == nodes[1..] + [n];
        IdOfAppend(nodes[1..], n, path);
      }
    }
  }

  /** Lines 69-79 and 81-91: the node table with `n` added when its path is
      not yet stored. */
  function Register(nodes: seq<Node>, n: Node): (r: seq<Node>)
    ensures IdOf(nodes, n.fullpath).Some? ==> r == nodes
    ensures IdOf(nodes, n.fullpath).None? ==> r == nodes + [n]
  {
    if IdOf(nodes, n.fullpath).Some? then nodes else nodes + [n]
  }

  /** Registering keeps paths unique and gives the new path the next id. */
  lemma RegisterFacts(nodes: seq<Node>, n: Node)
    requires UniquePaths(nodes)
    ensures UniquePaths(Register(nodes, n))
    ensures forall p :: (IdOf(Register(nodes, n), p) ==
      if IdOf(nodes, p).Some? then IdOf(nodes, p)
      else if n.fullpath == p then Some(|nodes| + 1)
      else None)
  {
    forall p ensures IdOf(Register(nodes, n), p) ==
      if IdOf(nodes, p).Some? then IdOf(nodes, p)
      else if n.fullpath == p then Some(|nodes| + 1)
      else None
    {
      IdOfAppend(nodes, n, p);
    }
    if IdOf(nodes, n.fullpath).None? {
      var r := nodes + [n];
      forall i, j | 0 <= i < j < |r| ensures r[i].fullpath != r[j].fullpath {
        if j == |nodes| {
          assert r[i] == nodes[i];
        }
      }
    }
  }

  /** `add_duplicate(orig, dup)`: both images are stored if new (an existing
      node keeps its dataclass and getter), and the pair (dup, orig) is added
      to the association table unless it is there already. */
  function AddDuplicate(g: Graph, orig: Node, dup: Node): (r: Graph)
    ensures |g.nodes| <= |r.nodes| <= |g.nodes| + 2 && r.nodes[..|g.nodes|] == g.nodes
    ensures IdOf(r.nodes, orig.fullpath).Some? && IdOf(r.nodes, dup.fullpath).Some?
    ensures IdOf(g.nodes, orig.fullpath).Some? && IdOf(g.nodes, dup.fullpath).Some? ==> r.nodes == g.nodes
    ensures forall e :: e in r.edges <==>
      e in g.edges || e == (IdOf(r.nodes, dup.fullpath).value, IdOf(r.nodes, orig.fullpath).value)
  {
    var nodes2 := Register(Register(g.nodes, orig), dup);
    RegisterBoth(g.nodes, orig, dup);
    var o := IdOf(nodes2, orig.fullpath);
    var d := IdOf(nodes2, dup.fullpath);
    Graph(nodes2, Rows.InsertIfAbsent(g.edges, (d.value, o.value)))
  }

  /** Registering two images extends the node table by at most two
      entries, after which both paths are stored. */
  lemma RegisterBoth(nodes: seq<Node>, a: Node, b: Node)
    ensures var r := Register(Register(nodes, a), b);
      |nodes| <= |r| <= |nodes| + 2 && r[..|nodes|] == nodes &&
      IdOf(r, a.fullpath).Some? && IdOf(r, b.fullpath).Some? &&
      (IdOf(nodes, a.fullpath).Some? && IdOf(nodes, b.fullpath).Some? ==> r == nodes)
  {
    var nodes1 := Register(nodes, a);
    RegisterGrows(nodes, a);
    RegisterGrows(nodes1, b);
    RegisterKeeps(nodes1, b, a.fullpath);
    PrefixTrans(nodes, nodes1, Register(nodes1, b));
  }

  /** Registering extends the table by at most one entry, after which the
      path is stored. */
  lemma RegisterGrows(nodes: seq<Node>, n: Node)
    ensures var r := Register(nodes, n);
      |nodes| <= |r| <= |nodes| + 1 && r[..|nodes|] == nodes && IdOf(r, n.fullpath).Some?
  {
    IdOfAppend(nodes, n, n.fullpath);
    if IdOf(nodes, n.fullpath).None? {
      assert (nodes + [n])[..|nodes|] == nodes;
    }
  }

  /** Registering leaves the id of a stored path alone. */
  lemma RegisterKeeps(nodes: seq<Node>, n: Node, p: string)
    requires IdOf(nodes, p).Some?
    ensures IdOf(Register(nodes, n), p) == IdOf(nodes, p)
  {
    IdOfAppend(nodes, n, p);
  }

  lemma PrefixTrans(a: seq<Node>, b: seq<Node>, c: seq<Node>)
    requires |a| <= |b| <= |c| && b[..|a|] == a && c[..|b|] == b
    ensures c[..|a|] == a
  {
    assert forall i :: 0 <= i < |a| ==> c[i] == b[i];
  }

  /** `add_duplicate` keeps paths unique, edges between stored ids and
      every edge stored once. */
  lemma AddDuplicateValid(g: Graph, orig: Node, dup: Node)
    requires Valid(g)
    ensures Valid(AddDuplicate(g, orig, dup))
  {
    var nodes1 := Register(g.nodes, orig);
    RegisterFacts(g.nodes, orig);
    RegisterFacts(nodes1, dup);
    var r := AddDuplicate(g, orig, dup);
    assert r.nodes == Register(nodes1, dup);
    var o := IdOf(r.nodes, orig.fullpath).value;
    var d := IdOf(r.nodes, dup.fullpath).value;
    assert r.edges == Rows.InsertIfAbsent(g.edges, (d, o));
    assert UniquePaths(r.nodes);
    forall k | 0 <= k < |r.edges|
      ensures 1 <= r.edges[k].0 <= |r.nodes| && 1 <= r.edges[k].1 <= |r.nodes|
    {
      assert r.edges[k] in r.edges;
      if r.edges[k] != (d, o) {
        var k' :| 0 <= k' < |g.edges| && g.edges[k'] == r.edges[k];
      }
    }
  }

  /** The ids joined to `id` by an edge, in either direction
      (`right_images` and `left_images`). */
  function NeighbourIds(g: Graph, id: nat): set<nat> {
    (set k | 0 <= k < |g.edges| && g.edges[k].0 == id :: g.edges[k].1)
    + (set k | 0 <= k < |g.edges| && g.edges[k].1 == id :: g.edges[k].0)
  }

  /** The paths of a set of ids. */
  function PathsOf(g: Graph, ids: set<nat>): set<string> {
    set j | j in ids && 1 <= j <= |g.nodes| :: g.nodes[j - 1].fullpath
  }

  /** Some association row joins ids `a` and `b`, in either direction. */
  predicate Linked(g: Graph, a: nat, b: nat) {
    exists k :: 0 <= k < |g.edges| &&
      ((g.edges[k].0 == a && g.edges[k].1 == b) || (g.edges[k].0 == b && g.edges[k].1 == a))
  }

  /** The neighbour ids of `a` are exactly the ids linked to it. */
  lemma NeighbourLinked(g: Graph, a: nat, b: nat)
    ensures b in NeighbourIds(g, a) <==> Linked(g, a, b)
  {
    if Linked(g, a, b) {
      var k :| 0 <= k < |g.edges| &&
        ((g.edges[k].0 == a && g.edges[k].1 == b) || (g.edges[k].0 == b && g.edges[k].1 == a));
      if g.edges[k].0 == a && g.edges[k].1 == b {
        assert b in (set k | 0 <= k < |g.edges| && g.edges[k].0 == a :: g.edges[k].1);
      } else {
        assert b in (set k | 0 <= k < |g.edges| && g.edges[k].1 == a :: g.edges[k].0);
      }
    }
  }

  /** A path is listed for `a` exactly when a node with that path is
      linked to `a`; with unique paths, exactly when the path's own id is. */
  lemma SimilarMember(g: Graph, a: nat, q: string)
    ensures q in PathsOf(g, NeighbourIds(g, a)) <==>
      exists j :: 1 <= j <= |g.nodes| && g.nodes[j - 1].fullpath == q && Linked(g, a, j)
    ensures UniquePaths(g.nodes) ==>
      (q in PathsOf(g, NeighbourIds(g, a)) <==> IdOf(g.nodes, q).Some? && Linked(g, a, IdOf(g.nodes, q).value))
  {
    if q in PathsOf(g, NeighbourIds(g, a)) {
      var j := PathSource(g, NeighbourIds(g, a), q);
      NeighbourLinked(g, a, j);
      if UniquePaths(g.nodes) {
        IdOfUnique(g.nodes, j - 1);
      }
    }
    if exists j :: 1 <= j <= |g.nodes| && g.nodes[j - 1].fullpath == q && Linked(g, a, j) {
      var j :| 1 <= j <= |g.nodes| && g.nodes[j - 1].fullpath == q && Linked(g, a, j);
      NeighbourLinked(g, a, j);
      PathInPaths(g, NeighbourIds(g, a), j);
    }
    if IdOf(g.nodes, q).Some? && Linked(g, a, IdOf(g.nodes, q).value) {
      var j := IdOf(g.nodes, q).value;
      NeighbourLinked(g, a, j);
      PathInPaths(g, NeighbourIds(g, a), j);
    }
  }

  /** `get_similar`: None for an unknown path; otherwise the set of paths
      linked to the path's node by an association row, read in both
      directions. */
  function Similar(g: Graph, path: string): (r: Option<set<string>>)
    ensures r.None? <==> IdOf(g.nodes, path).None?
    ensures r.Some? ==> forall q :: q in r.value ==> IdOf(g.nodes, q).Some?
    ensures r.Some? ==> forall q :: q in r.value <==>
      exists j :: 1 <= j <= |g.nodes| && g.nodes[j - 1].fullpath == q && Linked(g, IdOf(g.nodes, path).value, j)
    ensures r.Some? && UniquePaths(g.nodes) ==> forall q :: q in r.value <==>
      IdOf(g.nodes, q).Some? && Linked(g, IdOf(g.nodes, path).value, IdOf(g.nodes, q).value)
  {
    match IdOf(g.nodes, path)
    case None => None
    case Some(id) =>
      var r := PathsOf(g, NeighbourIds(g, id));
      assert forall q :: q in r ==> IdOf(g.nodes, q).Some? by {
        forall q | q in r ensures IdOf(g.nodes, q).Some? {
          var j :| j in NeighbourIds(g, id) && 1 <= j <= |g.nodes| && g.nodes[j - 1].fullpath == q;
          IdOfFound(g.nodes, j - 1);
        }
      }
      forall q {
        SimilarMember(g, id, q);
      }
      Some(r)
  }

  /** The duplicate relation reads the same from both ends. */
  lemma SimilarSymmetric(g: Graph, p: string, q: string)
    requires Valid(g)
    requires Similar(g, p).Some? && q in Similar(g, p).value
    ensures Similar(g, q).Some? && p in Similar(g, q).value
  {
    var id := IdOf(g.nodes, p).value;
    var j := PathSource(g, NeighbourIds(g, id), q);
    IdOfUnique(g.nodes, j - 1);
    NeighbourSymmetric(g, id, j);
    PathInPaths(g, NeighbourIds(g, j), id);
    assert Similar(g, q) == Some(PathsOf(g, NeighbourIds(g, j)));
  }

  /** Edges are read in both directions. */
  lemma NeighbourSymmetric(g: Graph, i: nat, j: nat)
    requires j in NeighbourIds(g, i)
    ensures i in NeighbourIds(g, j)
  {
    var k :| 0 <= k < |g.edges| &&
      ((g.edges[k].0 == i && g.edges[k].1 == j) || (g.edges[k].1 == i && g.edges[k].0 == j));
    if g.edges[k].0 == i && g.edges[k].1 == j {
      assert i in (set k | 0 <= k < |g.edges| && g.edges[k].1 == j :: g.edges[k].0);
    } else {
      assert i in (set k | 0 <= k < |g.edges| && g.edges[k].0 == j :: g.edges[k].1);
    }
  }

  /** A path of `PathsOf(g, ids)` with the id it comes from. */
  lemma PathSource(g: Graph, ids: set<nat>, q: string) returns (j: nat)
    requires q in PathsOf(g, ids)
    ensures j in ids && 1 <= j <= |g.nodes| && g.nodes[j - 1].fullpath == q
  {
    j :| j in ids && 1 <= j <= |g.nodes| && g.nodes[j - 1].fullpath == q;
  }

  lemma PathInPaths(g: Graph, ids: set<nat>, j: nat)
    requires j in ids && 1 <= j <= |g.nodes|
    ensures g.nodes[j - 1].fullpath in PathsOf(g, ids)
  {
  }

  /** After `add_duplicate(orig, dup)` each image lists the other. */
  lemma AddDuplicateLinks(g: Graph, orig: Node, dup: Node)
    requires Valid(g)
    ensures var r := AddDuplicate(g, orig, dup);
      dup.fullpath in Similar(r, orig.fullpath).value && orig.fullpath in Similar(r, dup.fullpath).value
  {
    var r := AddDuplicate(g, orig, dup);
    var o := IdOf(r.nodes, orig.fullpath).value;
    var d := IdOf(r.nodes, dup.fullpath).value;
    assert (d, o) in r.edges;
    var k :| 0 <= k < |r.edges| && r.edges[k] == (d, o);
    assert d in NeighbourIds(r, o) && o in NeighbourIds(r, d);
  }

  /** Repeating `add_duplicate` with the same images changes nothing. */
  lemma AddDuplicateIdempotent(g: Graph, orig: Node, dup: Node)
    requires Valid(g)
    ensures AddDuplicate(AddDuplicate(g, orig, dup), orig, dup) == AddDuplicate(g, orig, dup)
  {
    var r := AddDuplicate(g, orig, dup);
    var r2 := AddDuplicate(r, orig, dup);
    assert r2.nodes == r.nodes;
    assert (IdOf(r.nodes, dup.fullpath).value, IdOf(r.nodes, orig.fullpath).value) in r.edges;
  }

  /** The first link of the chain: `b` as a duplicate of `a` in an empty
      store. */
  lemma FirstLink(a: Node, b: Node)
    requires a.fullpath == "a" && b.fullpath == "b"
    ensures AddDuplicate(Graph([], []), a, b) == Graph([a, b], [(2, 1)])
  {
    assert Register([], a) == [a];
    assert IdOf([a], "b").None?;
    assert Register([a], b) == [a, b];
    assert IdOf([a, b], "a") == Some(1);
    assert IdOf([a, b], "b") == Some(2);
  }

  /** The second link: `c` as a duplicate of `b`. */
  lemma SecondLink(a: Node, b: Node, c: Node)
    requires a.fullpath == "a" && b.fullpath == "b" && c.fullpath == "c"
    ensures AddDuplicate(Graph([a, b], [(2, 1)]), b, c) == Graph([a, b, c], [(2, 1), (3, 2)])
  {
    assert IdOf([a, b], "b") == Some(2);
    assert Register([a, b], b) == [a, b];
    assert IdOf([a, b], "c").None?;
    assert Register([a, b], c) == [a, b] + [c] == [a, b, c];
    IdOfAppend([a, b], c, "b");
    IdOfAppend([a, b], c, "c");
    assert IdOf([a, b, c], "b") == Some(2) && IdOf([a, b, c], "c") == Some(3);
    assert (3, 2) !in [(2, 1)];
  }

  /** Recording `b` as a duplicate of `a`, then `c` as one of `b`, in an
      empty store gives ids 1, 2, 3 and the edges (2, 1) and (3, 2). */
  lemma ChainExample(a: Node, b: Node, c: Node)
    requires a.fullpath == "a" && b.fullpath == "b" && c.fullpath == "c"
    ensures AddDuplicate(AddDuplicate(Graph([], []), a, b), b, c) == Graph([a, b, c], [(2, 1), (3, 2)])
  {
    FirstLink(a, b);
    SecondLink(a, b, c);
  }

  /** In the chain `a`–`b`–`c`, `a` is linked to `b` alone. */
  lemma ChainSimilarA(a: Node, b: Node, c: Node)
    requires a.fullpath == "a" && b.fullpath == "b" && c.fullpath == "c"
    ensures Similar(Graph([a, b, c], [(2, 1), (3, 2)]), "a") == Some({"b"})
  {
    var g := Graph([a, b, c], [(2, 1), (3, 2)]);
    assert IdOf(g.nodes, "a") == Some(1);
    assert NeighbourIds(g, 1) == {2} by {
      forall j | j in NeighbourIds(g, 1) ensures j == 2 {
        var k :| 0 <= k < |g.edges| && ((g.edges[k].0 == 1 && g.edges[k].1 == j) || (g.edges[k].1 == 1 && g.edges[k].0 == j));
        assert k == 0 || k == 1;
      }
      assert g.edges[0].1 == 1;
    }
    assert PathsOf(g, {2}) == {"b"} by {
      assert g.nodes[1].fullpath == "b";
    }
  }

  /** In the chain `a`–`b`–`c`, `b` is linked to `c`. */
  lemma ChainSimilarB(a: Node, b: Node, c: Node)
    requires a.fullpath == "a" && b.fullpath == "b" && c.fullpath == "c"
    ensures var g := Graph([a, b, c], [(2, 1), (3, 2)]);
      Similar(g, "b").Some? && "c" in Similar(g, "b").value
  {
    var g := Graph([a, b, c], [(2, 1), (3, 2)]);
    assert IdOf(g.nodes, "b") == Some(2) by {
      assert g.nodes[0].fullpath != "b";
    }
    assert g.edges[1] == (3, 2);
    assert 3 in NeighbourIds(g, 2);
    PathInPaths(g, NeighbourIds(g, 2), 3);
  }

  /** `a`–`b` and `b`–`c` do not make `c` a duplicate of `a`. */
  lemma NotTransitive(a: Node, b: Node, c: Node)
    requires a.fullpath == "a" && b.fullpath == "b" && c.fullpath == "c"
    ensures var g := AddDuplicate(AddDuplicate(Graph([], []), a, b), b, c);
      "b" in Similar(g, "a").value && "c" in Similar(g, "b").value && "c" !in Similar(g, "a").value
  {
    ChainExample(a, b, c);
    ChainSimilarA(a, b, c);
    ChainSimilarB(a, b, c);
  }

  /** The smallest member of `s` that is at least `j` (and at most `n`). */
  function FirstIn(s: set<nat>, j: nat, n: nat): (r: nat)
    requires exists k :: k in s && j <= k <= n
    ensures r in s && j <= r <= n
    ensures forall k :: k in s && j <= k ==> r <= k
    decreases n - j
  {
    if j in s then j else FirstIn(s, j + 1, n)
  }

  /** The ids `get_main_similar` chooses among: the image and its stored
      neighbours. */
  function Candidates(g: Graph, id: nat): set<nat> {
    (set j | j in NeighbourIds(g, id) && 1 <= j <= |g.nodes|) + {id}
  }

  /** `get_main_similar`: the path itself when unknown; otherwise, of the
      image and its direct neighbours, the one with the smallest id. */
  function MainSimilar(g: Graph, path: string): (r: string)
    ensures IdOf(g.nodes, path).None? ==> r == path
    ensures IdOf(g.nodes, path).Some? ==> r == path || r in Similar(g, path).value
  {
    match IdOf(g.nodes, path)
    case None => path
    case Some(id) =>
      var m := FirstIn(Candidates(g, id), 1, |g.nodes|);
      assert m != id ==> g.nodes[m - 1].fullpath in PathsOf(g, NeighbourIds(g, id));
      g.nodes[m - 1].fullpath
  }

  /** The chosen image has the smallest id of the image and its neighbours. */
  lemma MainSimilarMinimal(g: Graph, path: string)
    requires Valid(g) && IdOf(g.nodes, path).Some?
    ensures IdOf(g.nodes, MainSimilar(g, path)).value <= IdOf(g.nodes, path).value
    ensures forall q :: q in Similar(g, path).value ==> IdOf(g.nodes, MainSimilar(g, path)).value <= IdOf(g.nodes, q).value
  {
    var id := IdOf(g.nodes, path).value;
    var m := FirstIn(Candidates(g, id), 1, |g.nodes|);
    assert MainSimilar(g, path) == g.nodes[m - 1].fullpath;
    IdOfUnique(g.nodes, m - 1);
    forall q | q in Similar(g, path).value ensures m <= IdOf(g.nodes, q).value {
      var j := PathSource(g, NeighbourIds(g, id), q);
      IdOfUnique(g.nodes, j - 1);
      assert j in Candidates(g, id);
    }
  }
}
