/** Essentials/Routing_path.py: multi-path routing-table construction in a sensor
    network.  Step 1 builds routes of at most P hops outward from the nodes near the sink,
    step 2 gives each reached node its hop bound, and step 3 propagates routes outward,
    node by node, to neighbours farther from the sink. */
module RoutingEssentials {
  import opened Results

  /** An entry of a route: a node id, or the sink marker 's'. */
  datatype Hop = Node(id: int) | Sink

  type Path = seq<Hop>

  /** The routing fields of one SensorNode. */
  datatype SensorState = SensorState(
    id: int,
    neighbors: seq<int>,
    hasPPK: bool,          // node.PPK has been set to the sink's parameters
    tu: seq<Path>,          // initial routes (Tu)
    tv: seq<Path>,          // final multi-path table (Tv)
    p: Option<int>,         // hop bound P
    dus: Option<real>)      // stored distance to the sink

  predicate NoDuplicates<T(==)>(s: seq<T>)
  {
    forall a, b :: 0 <= a < b < |s| ==> s[a] != s[b]
  }

  /** math.ceil. */
  function Ceil(x: real): (c: int)
    ensures x <= c as real < x + 1.0
  {
    -((-x).Floor)
  }

  function Min(a: real, b: real): real { if a < b then a else b }

  /** max(len(path) for path in paths), and 0 for no paths. */
  function MaxLen(paths: seq<Path>): (m: nat)
    ensures forall q :: 0 <= q < |paths| ==> |paths[q]| <= m
    ensures |paths| > 0 ==> exists q :: 0 <= q < |paths| && |paths[q]| == m
    decreases |paths|
  {
    if |paths| == 0 then 0
    else
      var m := MaxLen(paths[..|paths| - 1]);
      var last := |paths[|paths| - 1]|;
      assert forall q :: 0 <= q < |paths| - 1 ==> paths[q] == paths[..|paths| - 1][q];
      if last > m then last else m
  }

  /** The node ids of a route [v, 's', u1, u2, ...], in order: v, u1, u2, ... */
  predicate IsRoute(path: Path)
  {
    |path| >= 2 && path[0].Node? && path[1] == Sink &&
    forall q :: 2 <= q < |path| ==> path[q].Node?
  }

  function Chain(path: Path): (ids: seq<int>)
    requires IsRoute(path)
    ensures |ids| == |path| - 1 && ids[0] == path[0].id
    ensures forall q :: 1 <= q < |ids| ==> ids[q] == path[q + 1].id
  {
    [path[0].id] + seq(|path| - 2, q requires 0 <= q < |path| - 2 => path[q + 2].id)
  }

  lemma ChainAppend(path: Path, id: int)
    requires IsRoute(path)
    ensures IsRoute(path + [Node(id)]) && Chain(path + [Node(id)]) == Chain(path) + [id]
  {
    assert IsRoute(path + [Node(id)]);
    var c, c' := Chain(path), Chain(path + [Node(id)]);
    assert |c'| == |c| + 1;
    forall q | 0 <= q < |c'| ensures c'[q] == (c + [id])[q] {
      if q > 0 {
        assert c'[q] == (path + [Node(id)])[q + 1].id;
      }
    }
  }

  // ---------------------------------------------------------------------------
  // The network

  class SensorNetwork {
    /** The sensor nodes, nodes[k] having id k + 1. */
    var nodes: seq<SensorState>
    /** sink.PPK['averds'], absent until step 2 runs. */
    var averds: Option<real>
    /** distance_to_sink of each node. */
    const sinkDist: seq<real>
    /** math.dist between the positions of two nodes. */
    const pairDist: seq<seq<real>>
    /** comm_radius of each node. */
    const radius: seq<real>
    /** The sink's D0. */
    const d0: real

    predicate Shaped()
    {
      |sinkDist| == |radius| == |pairDist| &&
      forall k :: 0 <= k < |pairDist| ==> |pairDist[k]| == |pairDist|
    }

    ghost predicate Valid()
      reads this
    {
      Shaped() && |nodes| == |sinkDist| &&
      (forall k :: 0 <= k < |nodes| ==> nodes[k].id == k + 1) &&
      (forall k, x :: 0 <= k < |nodes| && 0 <= x < |nodes[k].neighbors| ==>
         1 <= nodes[k].neighbors[x] <= |nodes|)
    }

    /** The strict range test of calculate_neighbors, taken once per unordered pair. */
    predicate Linked(a: nat, b: nat)
      requires Shaped() && a < |radius| && b < |radius|
    {
      if a < b then pairDist[a][b] < Min(radius[a], radius[b])
      else if b < a then pairDist[b][a] < Min(radius[b], radius[a])
      else false
    }

    /** The ids, in increasing order, of the nodes below c linked to node k. */
    function LinkedIds(k: nat, c: nat): (ids: seq<int>)
      requires Shaped() && k < |radius| && c <= |radius|
      ensures forall x :: x in ids <==> 1 <= x <= c && x - 1 != k && Linked(x - 1, k)
      ensures forall a, b :: 0 <= a < b < |ids| ==> ids[a] < ids[b]
    {
      if c == 0 then []
      else
        var before := LinkedIds(k, c - 1);
        assert forall a :: 0 <= a < |before| ==> before[a] <= c - 1 by {
          forall a | 0 <= a < |before| ensures before[a] <= c - 1 {
            assert before[a] in before;
          }
        }
        before + (if c - 1 != k && Linked(c - 1, k) then [c] else [])
    }

    /** The nodes get ids 1..n with no routing state; the neighbour lists are then filled. */
    constructor (sinkDist: seq<real>, pairDist: seq<seq<real>>, radius: seq<real>, d0: real)
      requires |sinkDist| == |radius| == |pairDist|
      requires forall k :: 0 <= k < |pairDist| ==> |pairDist[k]| == |pairDist|
      ensures Valid() && averds == None
      ensures this.sinkDist == sinkDist && this.pairDist == pairDist
      ensures this.radius == radius && this.d0 == d0
      ensures |nodes| == |sinkDist|
      ensures forall k :: 0 <= k < |nodes| ==>
                nodes[k] == SensorState(k + 1, LinkedIds(k, |nodes|), false, [], [], None, None)
    {
      this.sinkDist, this.pairDist, this.radius, this.d0 := sinkDist, pairDist, radius, d0;
      nodes := seq(|sinkDist|, k requires 0 <= k < |sinkDist| =>
                     SensorState(k + 1, [], false, [], [], None, None));
      averds := None;
      new;
      CalculateNeighbors();
    }

    /** What the neighbour lists hold after calculate_neighbors on fresh nodes. */
    ghost predicate NeighborsCalculated()
      reads this
      requires Valid()
    {
      forall k :: 0 <= k < |nodes| ==> nodes[k].neighbors == LinkedIds(k, |nodes|)
    }

    /** How far the pair loop has got, for node k: the other nodes m < Cut(i, j, k) have
        been tested against k once rows before i and columns before j of row i are done. */
    function Cut(n: nat, i: nat, j: nat, k: nat): nat
    {
      if k < i then n else if k == i then j else if k < j then i + 1 else i
    }

    lemma LinkedIdsSelf(k: nat)
      requires Shaped() && k < |radius|
      ensures LinkedIds(k, k + 1) == LinkedIds(k, k)
    {
    }

    /** Each unordered pair i < j is tested once; when linked, each id goes on the other's
        list.  Node k thus receives the ids of its linked nodes in increasing order. */
    method CalculateNeighbors()
      requires Valid()
      modifies this
      ensures Valid() && averds == old(averds) && |nodes| == |old(nodes)|
      ensures forall k :: 0 <= k < |nodes| ==>
                nodes[k] == old(nodes[k]).(neighbors := old(nodes[k].neighbors) + LinkedIds(k, |nodes|))
    {
      var n := |nodes|;
      ghost var base := nodes;
      forall k | 0 <= k < n ensures nodes[k] == base[k].(neighbors := base[k].neighbors + LinkedIds(k, Cut(n, 0, 1, k))) {
        assert LinkedIds(k, Cut(n, 0, 1, k)) == [];
        assert base[k].neighbors + [] == base[k].neighbors;
      }
      for i := 0 to n
        invariant Valid() && averds == old(averds) && |nodes| == n
        invariant Linking(base, i, i + 1)
      {
        LinkRow(base, i);
        RowDone(n, i);
      }
    }

    /** Node k's list is its list in base followed by the ids tested so far. */
    ghost predicate Linking(base: seq<SensorState>, i: nat, j: nat)
      reads this
      requires Valid()
    {
      |base| == |nodes| && (i < |nodes| ==> i < j <= |nodes|) &&
      forall k :: 0 <= k < |nodes| ==>
        nodes[k] == base[k].(neighbors := base[k].neighbors + LinkedIds(k, Cut(|nodes|, i, j, k)))
    }

    /** Row i of the pair loop: i is tested against every j > i. */
    method LinkRow(ghost base: seq<SensorState>, i: nat)
      requires Valid() && i < |nodes| && Linking(base, i, i + 1)
      modifies this
      ensures Valid() && averds == old(averds) && |nodes| == |old(nodes)|
      ensures Linking(base, i, |nodes|)
    {
      var n := |nodes|;
      for j := i + 1 to n
        invariant Valid() && averds == old(averds) && |nodes| == n
        invariant Linking(base, i, j)
      {
        ghost var before := nodes;
        LinkPair(i, j);
        LinkingStep(base, before, nodes, i, j);
      }
    }

    /** Testing the pair i < j moves the cut of every list one column on. */
    lemma LinkingStep(base: seq<SensorState>, before: seq<SensorState>, after: seq<SensorState>,
                      i: nat, j: nat)
      requires Shaped() && |before| == |radius| && |base| == |before| && i < j < |before|
      requires forall k :: 0 <= k < |before| ==>
                 before[k] == base[k].(neighbors := base[k].neighbors + LinkedIds(k, Cut(|before|, i, j, k)))
      requires |after| == |before| && forall k :: 0 <= k < |before| ==>
                 after[k] == before[k].(neighbors := before[k].neighbors + PairIds(i, j, k))
      ensures forall k :: 0 <= k < |after| ==>
                after[k] == base[k].(neighbors := base[k].neighbors + LinkedIds(k, Cut(|after|, i, j + 1, k)))
    {
      var n := |before|;
      CutStep(n, i, j);
      forall k | 0 <= k < n
        ensures after[k] == base[k].(neighbors := base[k].neighbors + LinkedIds(k, Cut(n, i, j + 1, k)))
      {
        assert base[k].neighbors + LinkedIds(k, Cut(n, i, j + 1, k)) ==
               (base[k].neighbors + LinkedIds(k, Cut(n, i, j, k))) + PairIds(i, j, k);
      }
    }

    lemma RowDone(n: nat, i: nat)
      requires Shaped() && n == |radius| && i < n
      ensures forall k :: 0 <= k < n ==> LinkedIds(k, Cut(n, i, n, k)) == LinkedIds(k, Cut(n, i + 1, i + 2, k))
    {
      if i + 1 < n {
        LinkedIdsSelf(i + 1);
      }
    }

    /** The body of the pair loop: a linked pair gets each other's id appended. */
    method LinkPair(i: nat, j: nat)
      requires Valid() && i < j < |nodes|
      modifies this
      ensures Valid() && averds == old(averds) && |nodes| == |old(nodes)|
      ensures forall k :: 0 <= k < |nodes| ==>
                nodes[k] == old(nodes[k]).(neighbors := old(nodes[k].neighbors) + PairIds(i, j, k))
    {
      if pairDist[i][j] < Min(radius[i], radius[j]) {
        nodes := nodes[i := nodes[i].(neighbors := nodes[i].neighbors + [nodes[j].id])];
        nodes := nodes[j := nodes[j].(neighbors := nodes[j].neighbors + [nodes[i].id])];
      }
    }

    /** What testing the pair i < j appends to node k's list. */
    function PairIds(i: nat, j: nat, k: nat): seq<int>
      requires Shaped() && i < j < |radius|
    {
      if Linked(i, j) && k == i then [j + 1]
      else if Linked(i, j) && k == j then [i + 1]
      else []
    }

    lemma CutStep(n: nat, i: nat, j: nat)
      requires Shaped() && n == |radius| && i < j < n
      ensures forall k :: 0 <= k < n ==>
                LinkedIds(k, Cut(n, i, j + 1, k)) == LinkedIds(k, Cut(n, i, j, k)) + PairIds(i, j, k)
    {
      forall k | 0 <= k < n
        ensures LinkedIds(k, Cut(n, i, j + 1, k)) == LinkedIds(k, Cut(n, i, j, k)) + PairIds(i, j, k)
      {
        if k == j {
          assert Cut(n, i, j + 1, k) == i + 1 && Cut(n, i, j, k) == i;
          assert Linked(i, j) == Linked(i, k);
        } else if k == i {
          assert Linked(i, j) == Linked(j, k);
        }
      }
    }

    /** calculate_neighbors on fresh nodes gives a symmetric, irreflexive relation. */
    lemma NeighborsSymmetric()
      requires Valid() && NeighborsCalculated()
      ensures forall a, b :: 0 <= a < |nodes| && 0 <= b < |nodes| ==>
                (b + 1 in nodes[a].neighbors <==> a + 1 in nodes[b].neighbors)
      ensures forall a :: 0 <= a < |nodes| ==> a + 1 !in nodes[a].neighbors
    {
    }

    /** next(n for n in nodes if n.node_id == id): the first node with that id, and
        StopIteration when there is none. */
    method GetNodeById(id: int) returns (r: Result<nat>)
      requires Valid()
      ensures r.Success? <==> 1 <= id <= |nodes|
      ensures r.Success? ==> r.value < |nodes| && nodes[r.value].id == id
      ensures r.Failure? ==> r.error == NotFound
    {
      for k := 0 to |nodes|
        invariant id < 1 || id > k
      {
        if nodes[k].id == id {
          return Success(k);
        }
      }
      return Failure(NotFound);
    }
  
    // -------------------------------------------------------------------------
    // Step 1: initial routes of at most P hops

    /** path is a route [v, 's', u1, ..., um] ending at node k of n: v is within D0, every
        next node is strictly farther from the sink, the last node is k, and beyond the
        seed it has at most P hops. */
    ghost predicate Route(n: nat, k: nat, path: Path, P: int)
      requires Shaped() && n == |sinkDist|
    {
      k < n && IsRoute(path) &&
      var ids := Chain(path);
      (forall q :: 0 <= q < |ids| ==> 1 <= ids[q] <= n) &&
      sinkDist[ids[0] - 1] <= d0 &&
      (forall q :: 1 <= q < |ids| ==> sinkDist[ids[q - 1] - 1] < sinkDist[ids[q] - 1]) &&
      ids[|ids| - 1] == k + 1 &&
      (|path| == 2 || |path| <= P + 1)
    }

    lemma RouteExtend(n: nat, c: nat, path: Path, P: int, nb: nat)
      requires Shaped() && n == |sinkDist| && Route(n, c, path, P) && nb < n
      requires sinkDist[nb] > sinkDist[c] && |path| + 1 <= P + 1
      ensures Route(n, nb, path + [Node(nb + 1)], P)
    {
      ChainAppend(path, nb + 1);
    }

    /** A queued step-1 entry: the node reached, the route to it and its hop count. */
    ghost predicate Queued(n: nat, e: (nat, Path, int), P: int)
      requires Shaped() && n == |sinkDist|
    {
      Route(n, e.0, e.1, P) && |e.1| == e.2 + 1 && e.2 >= 1
    }

    /** What step 1 may have done to the nodes: only Tu and PPK change, Tu is extended
        by routes to the node, without repetition when it started empty, and only nodes
        within D0 are given the PPK. */
    ghost predicate RoutesAdded(before: seq<SensorState>, after: seq<SensorState>, P: int)
      requires Shaped() && |before| == |sinkDist|
    {
      |after| == |before| &&
      forall k :: 0 <= k < |before| ==>
        after[k].(tu := before[k].tu, hasPPK := before[k].hasPPK) == before[k] &&
        before[k].tu <= after[k].tu &&
        (forall q :: |before[k].tu| <= q < |after[k].tu| ==> Route(|before|, k, after[k].tu[q], P)) &&
        (before[k].tu == [] ==> NoDuplicates(after[k].tu)) &&
        (before[k].hasPPK ==> after[k].hasPPK) &&
        (after[k].hasPPK ==> before[k].hasPPK || sinkDist[k] <= d0)
    }

    /** Appending a new route to node k's Tu keeps RoutesAdded. */
    lemma AddRoute(before: seq<SensorState>, after: seq<SensorState>, P: int, k: nat, path: Path)
      requires Shaped() && |before| == |sinkDist| && RoutesAdded(before, after, P)
      requires k < |after| && Route(|before|, k, path, P) && path !in after[k].tu
      ensures RoutesAdded(before, after[k := after[k].(tu := after[k].tu + [path])], P)
    {
      var after' := after[k := after[k].(tu := after[k].tu + [path])];
      assert before[k].tu <= after'[k].tu;
    }

    /** Every node within D0 is seeded with [id, 's'] and queued; routes then grow one
        strictly farther neighbour at a time while the hop count is below P, and a route
        already in the neighbour's Tu is not added again.  At most fuel entries are taken
        from the queue. */
    method Step1MaxPRoutes(P: int, fuel: nat)
      requires Valid()
      modifies this
      ensures Valid() && averds == old(averds)
      ensures RoutesAdded(old(nodes), nodes, P)
      ensures forall k :: 0 <= k < |nodes| && sinkDist[k] <= d0 ==>
                nodes[k].hasPPK && [Node(k + 1), Sink] in nodes[k].tu
    {
      ghost var before := nodes;
      var n := |nodes|;
      var queue := SeedRoutes(P);
      var steps := fuel;
      while queue != [] && steps > 0
        invariant Valid() && averds == old(averds) && RoutesAdded(before, nodes, P)
        invariant forall k :: 0 <= k < n && sinkDist[k] <= d0 ==>
                    nodes[k].hasPPK && [Node(k + 1), Sink] in nodes[k].tu
        invariant forall e :: e in queue ==> Queued(n, e, P)
        decreases steps
      {
        var (current, path, hop) := queue[0];
        queue := queue[1..];
        steps := steps - 1;
        if hop >= P {
          continue;
        }
        ghost var mid := nodes;
        queue := ExtendRoutes(before, current, path, hop, P, queue);
        forall k | 0 <= k < n && sinkDist[k] <= d0
          ensures nodes[k].hasPPK && [Node(k + 1), Sink] in nodes[k].tu
        {
          assert mid[k].tu <= nodes[k].tu && nodes[k].(tu := mid[k].tu) == mid[k];
        }
      }
    }

    /** The first loop of step 1: each node within D0 gets the PPK and the route
        [id, 's'], which is queued with hop count 1. */
    method SeedRoutes(P: int) returns (queue: seq<(nat, Path, int)>)
      requires Valid()
      modifies this
      ensures Valid() && averds == old(averds) && RoutesAdded(old(nodes), nodes, P)
      ensures forall k :: 0 <= k < |nodes| && sinkDist[k] <= d0 ==>
                nodes[k].hasPPK && [Node(k + 1), Sink] in nodes[k].tu
      ensures forall e :: e in queue ==> Queued(|nodes|, e, P)
    {
      ghost var before := nodes;
      var n := |nodes|;
      queue := [];
      for k := 0 to n
        invariant Valid() && averds == old(averds) && |nodes| == n && RoutesAdded(before, nodes, P)
        invariant forall k' :: k <= k' < n ==> nodes[k'] == before[k']
        invariant forall k' :: 0 <= k' < k && sinkDist[k'] <= d0 ==>
                    nodes[k'].hasPPK && [Node(k' + 1), Sink] in nodes[k'].tu
        invariant forall e :: e in queue ==> Queued(n, e, P)
      {
        if sinkDist[k] <= d0 {
          var path := [Node(nodes[k].id), Sink];
          SeedStep(before, nodes, P, k, path);
          nodes := nodes[k := nodes[k].(hasPPK := true, tu := nodes[k].tu + [path])];
          queue := queue + [(k, path, 1)];
        }
      }
    }

    /** Seeding node k, still untouched and within D0, keeps RoutesAdded and gives a
        queue entry. */
    lemma SeedStep(before: seq<SensorState>, cur: seq<SensorState>, P: int, k: nat, path: Path)
      requires Shaped() && |before| == |sinkDist| && RoutesAdded(before, cur, P)
      requires k < |cur| && cur[k] == before[k] && sinkDist[k] <= d0 && path == [Node(k + 1), Sink]
      ensures RoutesAdded(before, cur[k := cur[k].(hasPPK := true, tu := cur[k].tu + [path])], P)
      ensures Queued(|before|, (k, path, 1), P)
      ensures path in cur[k := cur[k].(hasPPK := true, tu := cur[k].tu + [path])][k].tu
    {
      assert Chain(path) == [k + 1];
      var after := cur[k := cur[k].(hasPPK := true, tu := cur[k].tu + [path])];
      assert after[k].tu == before[k].tu + [path];
      forall k' | 0 <= k' < |before| && k' != k ensures after[k'] == cur[k'] {
      }
    }

    /** The inner loop of step 1 for one queue entry, returning the queue with the new
        entries appended. */
    method ExtendRoutes(ghost before: seq<SensorState>, current: nat, path: Path, hop: int, P: int,
                        queue: seq<(nat, Path, int)>)
      returns (queue': seq<(nat, Path, int)>)
      requires Valid() && |before| == |nodes| && RoutesAdded(before, nodes, P)
      requires Queued(|nodes|, (current, path, hop), P) && hop < P
      requires forall e :: e in queue ==> Queued(|nodes|, e, P)
      modifies this
      ensures Valid() && averds == old(averds) && RoutesAdded(before, nodes, P)
      ensures TuGrown(old(nodes), nodes)
      ensures forall e :: e in queue' ==> Queued(|nodes|, e, P)
    {
      var n := |nodes|;
      queue' := queue;
      var nbs := nodes[current].neighbors;
      for x := 0 to |nbs|
        invariant Valid() && averds == old(averds) && |nodes| == n && RoutesAdded(before, nodes, P)
        invariant nbs == nodes[current].neighbors
        invariant TuGrown(old(nodes), nodes)
        invariant forall e :: e in queue' ==> Queued(n, e, P)
      {
        ghost var prev := nodes;
        queue' := ExtendToNeighbor(before, current, path, hop, P, nbs[x], queue');
        TuGrownTrans(old(nodes), prev, nodes);
      }
    }

    /** One pass of that loop: the neighbour with the given id is looked up and offered
        the extended route, which is queued when it was added. */
    method ExtendToNeighbor(ghost before: seq<SensorState>, current: nat, path: Path, hop: int, P: int,
                            id: int, queue: seq<(nat, Path, int)>)
      returns (queue': seq<(nat, Path, int)>)
      requires Valid() && |before| == |nodes| && RoutesAdded(before, nodes, P)
      requires Queued(|nodes|, (current, path, hop), P) && hop < P && 1 <= id <= |nodes|
      requires forall e :: e in queue ==> Queued(|nodes|, e, P)
      modifies this
      ensures Valid() && averds == old(averds) && RoutesAdded(before, nodes, P)
      ensures TuGrown(old(nodes), nodes) && nodes[current].neighbors == old(nodes[current].neighbors)
      ensures forall e :: e in queue' ==> Queued(|nodes|, e, P)
    {
      var found := GetNodeById(id);
      var nb := found.value;
      var added := OfferRoute(before, current, path, hop, P, nb);
      queue' := queue;
      if added {
        var e := (nb, path + [Node(nb + 1)], hop + 1);
        assert Queued(|nodes|, e, P);
        queue' := queue + [e];
      }
    }

    /** Only Tu changes, by extension. */
    ghost predicate TuGrown(a: seq<SensorState>, b: seq<SensorState>)
    {
      |a| == |b| &&
      forall k :: 0 <= k < |a| ==> b[k].(tu := a[k].tu) == a[k] && a[k].tu <= b[k].tu
    }

    lemma TuGrownTrans(a: seq<SensorState>, b: seq<SensorState>, c: seq<SensorState>)
      requires TuGrown(a, b) && TuGrown(b, c)
      ensures TuGrown(a, c)
    {
      forall k | 0 <= k < |a| ensures c[k].(tu := a[k].tu) == a[k] && a[k].tu <= c[k].tu {
        assert b[k].(tu := a[k].tu) == a[k];
      }
    }

    /** One neighbour of the inner loop: the route is extended to nb when nb is strictly
        farther from the sink and the extended route is new to nb's Tu. */
    method OfferRoute(ghost before: seq<SensorState>, current: nat, path: Path, hop: int, P: int, nb: nat)
      returns (added: bool)
      requires Valid() && |before| == |nodes| && RoutesAdded(before, nodes, P)
      requires Queued(|nodes|, (current, path, hop), P) && hop < P && nb < |nodes|
      modifies this
      ensures Valid() && averds == old(averds) && RoutesAdded(before, nodes, P)
      ensures added <==> sinkDist[nb] > sinkDist[current] && path + [Node(nb + 1)] !in old(nodes[nb].tu)
      ensures added ==> Queued(|nodes|, (nb, path + [Node(nb + 1)], hop + 1), P)
      ensures nodes == if added then old(nodes)[nb := old(nodes[nb]).(tu := old(nodes[nb].tu) + [path + [Node(nb + 1)]])]
                       else old(nodes)
      ensures TuGrown(old(nodes), nodes)
    {
      added := false;
      if sinkDist[nb] > sinkDist[current] {
        var newPath := path + [Node(nodes[nb].id)];
        if newPath !in nodes[nb].tu {
          RouteExtend(|nodes|, current, path, P, nb);
          AddRoute(before, nodes, P, nb, newPath);
          nodes := nodes[nb := nodes[nb].(tu := nodes[nb].tu + [newPath])];
          added := true;
        }
      }
    }
  
    // -------------------------------------------------------------------------
    // Step 2: the hop bound P of every node

    /** How many of the first c nodes lie within D0 of the sink. */
    function WithinCount(c: nat): nat
      requires Shaped() && c <= |sinkDist|
    {
      if c == 0 then 0 else WithinCount(c - 1) + (if sinkDist[c - 1] <= d0 then 1 else 0)
    }

    /** The sum of their distances to the sink. */
    function WithinSum(c: nat): real
      requires Shaped() && c <= |sinkDist|
    {
      if c == 0 then 0.0 else WithinSum(c - 1) + (if sinkDist[c - 1] <= d0 then sinkDist[c - 1] else 0.0)
    }

    /** averds: the mean distance to the sink of the nodes within D0, and 1 when there
        are none. */
    function AverageDistance(): real
      requires Shaped()
    {
      var count := WithinCount(|sinkDist|);
      if count == 0 then 1.0 else WithinSum(|sinkDist|) / count as real
    }

    lemma {:induction false} WithinSumBounds(c: nat)
      requires Shaped() && c <= |sinkDist|
      requires forall k :: 0 <= k < |sinkDist| ==> sinkDist[k] >= 0.0
      ensures 0.0 <= WithinSum(c) <= WithinCount(c) as real * d0
      ensures (exists k :: 0 <= k < c && 0.0 < sinkDist[k] <= d0) ==> WithinSum(c) > 0.0
    {
      if c > 0 {
        WithinSumBounds(c - 1);
        if sinkDist[c - 1] <= d0 {
          assert WithinCount(c) as real * d0 == WithinCount(c - 1) as real * d0 + d0;
        }
      }
    }

    /** With distances that are not negative, averds lies between 0 and D0 when some node
        is within D0, and is positive when one of them is away from the sink. */
    lemma AverageDistanceBounds()
      requires Shaped() && forall k :: 0 <= k < |sinkDist| ==> sinkDist[k] >= 0.0
      ensures AverageDistance() >= 0.0
      ensures WithinCount(|sinkDist|) > 0 ==> AverageDistance() <= d0
      ensures (exists k :: 0 <= k < |sinkDist| && 0.0 < sinkDist[k] <= d0) ==> AverageDistance() > 0.0
      ensures WithinCount(|sinkDist|) == 0 ==> AverageDistance() == 1.0
    {
      var n := |sinkDist|;
      WithinSumBounds(n);
      var count := WithinCount(n);
      if count > 0 {
        var avg := WithinSum(n) / count as real;
        assert avg * count as real == WithinSum(n);
        if avg > d0 {
          assert avg * count as real > d0 * count as real;
        }
      }
    }

    /** The state step 2 gives a node with Tu: its distance is stored and
        P = max path length + ceil(dus / averds); a node without routes gets no P. */
    function HopBound(s: SensorState, k: nat, avg: real): (s': SensorState)
      requires Shaped() && k < |sinkDist| && (s.tu != [] ==> avg != 0.0)
    {
      if s.tu != [] then
        s.(dus := Some(sinkDist[k]), p := Some(MaxLen(s.tu) + Ceil(sinkDist[k] / avg)))
      else s.(p := None)
    }

    /** When averds is positive, the bound admits every route of Tu. */
    lemma HopBoundCoversRoutes(s: SensorState, k: nat, avg: real)
      requires Shaped() && k < |sinkDist| && avg > 0.0 && sinkDist[k] >= 0.0
      ensures HopBound(s, k, avg).p.Some? <==> s.tu != []
      ensures forall q :: 0 <= q < |s.tu| ==> |s.tu[q]| <= HopBound(s, k, avg).p.value
    {
      if s.tu != [] {
        assert sinkDist[k] / avg >= 0.0;
      }
    }

    /** averds is recorded at the sink; every node then gets its hop bound.  A zero
        averds makes the division fail at the first node with routes, after its dus has
        been stored. */
    method Step2CalculateP() returns (r: Result<()>)
      requires Valid()
      modifies this
      ensures Valid() && |nodes| == |old(nodes)|
      ensures averds == Some(AverageDistance())
      ensures r.Failure? <==> AverageDistance() == 0.0 && exists k :: 0 <= k < |nodes| && old(nodes[k]).tu != []
      ensures r.Failure? ==> r.error == ZeroDivision
      ensures r.Success? ==> forall k :: 0 <= k < |nodes| ==> nodes[k] == HopBound(old(nodes[k]), k, AverageDistance())
    {
      var avg := AverageDistance();
      averds := Some(avg);
      var n := |nodes|;
      for k := 0 to n
        invariant Valid() && |nodes| == n && averds == Some(avg)
        invariant avg == 0.0 ==> forall k' :: 0 <= k' < k ==> old(nodes[k']).tu == []
        invariant forall k' :: 0 <= k' < k ==> nodes[k'] == HopBound(old(nodes[k']), k', avg)
        invariant forall k' :: k <= k' < n ==> nodes[k'] == old(nodes[k'])
      {
        if nodes[k].tu != [] && avg == 0.0 {
          nodes := nodes[k := nodes[k].(dus := Some(sinkDist[k]))];
          return Failure(ZeroDivision);
        }
        nodes := nodes[k := HopBound(nodes[k], k, avg)];
      }
      return Success(());
    }
  
    // -------------------------------------------------------------------------
    // Step 3: propagation of the multi-path tables

    /** A node that starts step 3: it has a hop bound and is within D0 of the sink. */
    predicate Seeded(s: SensorState, k: nat)
      requires Shaped() && k < |sinkDist|
    {
      s.p.Some? && sinkDist[k] <= d0
    }

    /** The first loop of step 3 on the node list: the starting nodes copy Tu into Tv. */
    function Seeding(ns: seq<SensorState>): (ns': seq<SensorState>)
      requires Shaped() && |ns| == |sinkDist|
      ensures |ns'| == |ns|
    {
      seq(|ns|, k requires 0 <= k < |ns| => if Seeded(ns[k], k) then ns[k].(tv := ns[k].tu) else ns[k])
    }

    predicate EndsAt(path: Path, k: nat)
    {
      |path| > 0 && path[|path| - 1] == Node(k + 1)
    }

    /** What the propagation loop may have done since start: only Tv, P, dus and PPK
        change; a P once set is kept and its Tv only grows; a node without P is untouched
        until it first receives routes, and then keeps its distance and the PPK; paths
        added in the loop end at the node; the paths from index marks[k] on are new to
        Tv and within P. */
    ghost predicate Propagation(start: seq<SensorState>, after: seq<SensorState>, marks: seq<nat>)
      requires Shaped() && |start| == |sinkDist|
    {
      |after| == |start| && |marks| == |start| &&
      forall k :: 0 <= k < |start| ==>
        after[k].(tv := start[k].tv, p := start[k].p, dus := start[k].dus, hasPPK := start[k].hasPPK) == start[k] &&
        (start[k].p.Some? ==>
           after[k].p == start[k].p && after[k].dus == start[k].dus && after[k].hasPPK == start[k].hasPPK &&
           start[k].tv <= after[k].tv && marks[k] == |start[k].tv| &&
           forall q :: |start[k].tv| <= q < |after[k].tv| ==> EndsAt(after[k].tv[q], k)) &&
        (start[k].p.None? && after[k].p.None? ==> after[k] == start[k]) &&
        (start[k].p.None? && after[k].p.Some? ==>
           after[k].hasPPK && after[k].dus == Some(sinkDist[k]) && marks[k] <= |after[k].tv| &&
           forall q :: 0 <= q < |after[k].tv| ==> EndsAt(after[k].tv[q], k)) &&
        (after[k].p.Some? ==>
           forall q :: marks[k] <= q < |after[k].tv| ==>
             after[k].tv[q] !in after[k].tv[..q] && |after[k].tv[q]| <= after[k].p.value)
    }

    /** A node's state moved on: it gained a P, or its Tv grew. */
    predicate Changed(o: SensorState, a: SensorState)
    {
      (o.p.None? && a.p.Some?) || (o.p.Some? && |a.tv| > |o.tv|)
    }

    /** The state is only moved forward: a kept P with a growing Tv, or no P and no change. */
    predicate Advanced(o: SensorState, a: SensorState)
    {
      (o.p.Some? ==> a.p == o.p && o.tv <= a.tv && a.(tv := o.tv) == o) &&
      (o.p.None? && a.p.None? ==> a == o)
    }
  
    lemma AdvancedTrans(a: SensorState, b: SensorState, c: SensorState)
      requires Advanced(a, b) && Advanced(b, c)
      ensures Advanced(a, c)
      ensures Changed(a, b) ==> Changed(a, c)
    {
      if a.p.Some? {
        assert b.(tv := a.tv) == a && c.(tv := b.tv) == b;
      }
    }

    lemma AdvancedChanged(a: SensorState, b: SensorState)
      requires Advanced(a, b) && b != a
      ensures Changed(a, b)
    {
    }

    /** Appending a new path that ends at node k and fits its P keeps Propagation. */
    lemma PropagationAppend(start: seq<SensorState>, after: seq<SensorState>, marks: seq<nat>, k: nat, path: Path)
      requires Shaped() && |start| == |sinkDist| && Propagation(start, after, marks)
      requires k < |after| && after[k].p.Some? && EndsAt(path, k)
      requires path !in after[k].tv && |path| <= after[k].p.value
      ensures Propagation(start, after[k := after[k].(tv := after[k].tv + [path])], marks)
    {
      var a := after[k].(tv := after[k].tv + [path]);
      assert a.tv[..|after[k].tv|] == after[k].tv;
      if start[k].p.Some? {
        assert start[k].tv <= a.tv;
      }
    }

    /** A node without P receiving its first table keeps Propagation. */
    lemma PropagationFirstTable(start: seq<SensorState>, after: seq<SensorState>, marks: seq<nat>,
                                k: nat, bound: int, tv: seq<Path>)
      requires Shaped() && |start| == |sinkDist| && Propagation(start, after, marks)
      requires k < |after| && after[k].p.None?
      requires forall q :: 0 <= q < |tv| ==> EndsAt(tv[q], k)
      ensures Propagation(start, after[k := after[k].(hasPPK := true, dus := Some(sinkDist[k]), p := Some(bound), tv := tv)],
                          marks[k := |tv|])
    {
    }

    /** The first loop of step 3: the starting nodes copy Tu into Tv and are queued
        with no sender. */
    method SeedTables() returns (queue: seq<(nat, Option<nat>)>)
      requires Valid()
      modifies this
      ensures Valid() && averds == old(averds) && nodes == Seeding(old(nodes))
      ensures forall e :: e in queue ==> e.0 < |nodes| && e.1 == None
      ensures forall k :: 0 <= k < |nodes| ==> ((k, None) in queue <==> Seeded(nodes[k], k))
      ensures NoDuplicates(queue)
    {
      var n := |nodes|;
      queue := [];
      for k := 0 to n
        invariant Valid() && averds == old(averds) && |nodes| == n
        invariant forall k' :: 0 <= k' < k ==> nodes[k'] == Seeding(old(nodes))[k']
        invariant forall k' :: k <= k' < n ==> nodes[k'] == old(nodes[k'])
        invariant forall e :: e in queue ==> e.0 < k && e.1 == None
        invariant forall k' :: 0 <= k' < k ==> ((k', None) in queue <==> Seeded(nodes[k'], k'))
        invariant NoDuplicates(queue)
      {
        if nodes[k].p.Some? && sinkDist[k] <= d0 {
          nodes := nodes[k := nodes[k].(tv := nodes[k].tu)];
          queue := queue + [(k, None)];
        }
      }
    }

    /** [path + [id] for path in tv] for the neighbour nb. */
    function Extended(tv: seq<Path>, nb: nat): (tv': seq<Path>)
      ensures |tv'| == |tv| && forall q :: 0 <= q < |tv| ==> tv'[q] == tv[q] + [Node(nb + 1)]
    {
      seq(|tv|, q requires 0 <= q < |tv| => tv[q] + [Node(nb + 1)])
    }

    /** The body of the neighbour loop of step 3 for a neighbour nb other than the sender.
        Nothing happens unless nb is strictly farther from the sink than current.  A
        neighbour without P gets the PPK, its distance, P = longest path of current's Tv
        + ceil(dus / averds), and current's paths extended by its id; a missing averds is a
        KeyError and a zero one a division by zero.  A neighbour with P gets each extended
        path that is new and fits P. */
    method Offer(ghost start: seq<SensorState>, ghost marks: seq<nat>, current: nat, nb: nat)
      returns (r: Result<bool>, ghost marks': seq<nat>)
      requires Valid() && |start| == |nodes| && Propagation(start, nodes, marks)
      requires current < |nodes| && nb < |nodes|
      modifies this
      ensures Valid() && averds == old(averds) && |nodes| == |old(nodes)|
      ensures r.Failure? <==> sinkDist[nb] > sinkDist[current] && old(nodes[nb]).p.None? &&
                              (averds.None? || averds == Some(0.0))
      ensures r.Failure? ==> r.error == if averds.None? then NotFound else ZeroDivision
      ensures sinkDist[nb] <= sinkDist[current] ==> nodes == old(nodes) && r == Success(false)
      ensures r.Success? ==> Propagation(start, nodes, marks')
      ensures r.Success? ==> forall k :: 0 <= k < |nodes| && k != nb ==> nodes[k] == old(nodes[k])
      ensures r.Success? ==> Advanced(old(nodes[nb]), nodes[nb])
      ensures r.Success? ==> (r.value <==> Changed(old(nodes[nb]), nodes[nb]))
      ensures r.Success? && old(nodes[nb]).p.None? && sinkDist[nb] > sinkDist[current] ==>
                nodes[nb].p == Some(MaxLen(old(nodes[current].tv)) + Ceil(sinkDist[nb] / averds.value)) &&
                nodes[nb].tv == Extended(old(nodes[current].tv), nb)
    {
      marks' := marks;
      if sinkDist[nb] <= sinkDist[current] {
        return Success(false), marks';
      }
      if nodes[nb].p.None? {
        r, marks' := FirstTable(start, marks, current, nb);
        return r, marks';
      }
      var change := AppendPaths(start, marks, current, nb);
      return Success(change), marks';
    }

    /** The branch of Offer for a neighbour without P: it gets the PPK and its distance,
        then P and current's paths extended by its id, unless averds is missing or zero. */
    method FirstTable(ghost start: seq<SensorState>, ghost marks: seq<nat>, current: nat, nb: nat)
      returns (r: Result<bool>, ghost marks': seq<nat>)
      requires Valid() && |start| == |nodes| && Propagation(start, nodes, marks)
      requires current < |nodes| && nb < |nodes| && current != nb && nodes[nb].p.None?
      modifies this
      ensures Valid() && averds == old(averds) && |nodes| == |old(nodes)|
      ensures r.Failure? <==> averds.None? || averds == Some(0.0)
      ensures r.Failure? ==> r.error == if averds.None? then NotFound else ZeroDivision
      ensures r.Success? ==> r.value && Propagation(start, nodes, marks')
      ensures r.Success? ==>
                nodes == old(nodes)[nb := old(nodes[nb]).(hasPPK := true, dus := Some(sinkDist[nb]),
                                            p := Some(MaxLen(old(nodes[current].tv)) + Ceil(sinkDist[nb] / averds.value)),
                                            tv := Extended(old(nodes[current].tv), nb))]
    {
      marks' := marks;
      var longest := MaxLen(nodes[current].tv);
      if averds.None? || averds.value == 0.0 {
        nodes := nodes[nb := nodes[nb].(hasPPK := true, dus := Some(sinkDist[nb]))];
        return Failure(if averds.None? then NotFound else ZeroDivision), marks';
      }
      var tv := Extended(nodes[current].tv, nb);
      var bound := longest + Ceil(sinkDist[nb] / averds.value);
      PropagationFirstTable(start, nodes, marks, nb, bound, tv);
      nodes := nodes[nb := nodes[nb].(hasPPK := true, dus := Some(sinkDist[nb]), p := Some(bound), tv := tv)];
      marks' := marks[nb := |tv|];
      return Success(true), marks';
    }

  /** The inner loop for a neighbour that has P: each of current's paths extended by
        nb's id is appended when it is not yet in nb's Tv and has at most P entries. */
    method AppendPaths(ghost start: seq<SensorState>, ghost marks: seq<nat>, current: nat, nb: nat)
      returns (change: bool)
      requires Valid() && |start| == |nodes| && Propagation(start, nodes, marks)
      requires current < |nodes| && nb < |nodes| && sinkDist[nb] > sinkDist[current]
      requires nodes[nb].p.Some?
      modifies this
      ensures Valid() && averds == old(averds) && |nodes| == |old(nodes)|
      ensures Propagation(start, nodes, marks)
      ensures forall k :: 0 <= k < |nodes| && k != nb ==> nodes[k] == old(nodes[k])
      ensures Advanced(old(nodes[nb]), nodes[nb])
      ensures change <==> Changed(old(nodes[nb]), nodes[nb])
    {
      var n := |nodes|;
      var paths := nodes[current].tv;
      var bound := nodes[nb].p.value;
      change := false;
      for x := 0 to |paths|
        invariant Valid() && averds == old(averds) && |nodes| == n
        invariant Propagation(start, nodes, marks)
        invariant forall k :: 0 <= k < n && k != nb ==> nodes[k] == old(nodes[k])
        invariant Advanced(old(nodes[nb]), nodes[nb]) && nodes[nb].p == Some(bound)
        invariant change <==> |nodes[nb].tv| > |old(nodes[nb]).tv|
      {
        var newPath := paths[x] + [Node(nodes[nb].id)];
        if newPath !in nodes[nb].tv && |newPath| <= bound {
          PropagationAppend(start, nodes, marks, nb, newPath);
          ghost var prev := nodes[nb];
          nodes := nodes[nb := nodes[nb].(tv := nodes[nb].tv + [newPath])];
          AdvancedTrans(old(nodes[nb]), prev, nodes[nb]);
          change := true;
        }
      }
    }
  
    /** The neighbour loop so far has moved the nodes from o to a: each node only moved
        forward, the changed ones are strictly farther neighbours of current other than the
        sender, and sent lists exactly the changed ones. */
    ghost predicate SentFrom(o: seq<SensorState>, a: seq<SensorState>, nbs: seq<int>, current: nat,
                             sender: Option<nat>, sent: seq<nat>)
      requires Shaped() && |o| == |sinkDist| && current < |o|
    {
      |a| == |o| &&
      (forall k :: 0 <= k < |o| ==> Advanced(o[k], a[k])) &&
      (forall k :: 0 <= k < |o| && a[k] != o[k] ==>
         k + 1 in nbs && sender != Some(k) && sinkDist[k] > sinkDist[current]) &&
      (forall y :: y in sent ==> y < |o| && Changed(o[y], a[y])) &&
      (forall k :: 0 <= k < |o| && a[k] != o[k] ==> k in sent)
    }

    lemma SentStep(o: seq<SensorState>, prev: seq<SensorState>, a: seq<SensorState>, nbs: seq<int>,
                   current: nat, sender: Option<nat>, sent: seq<nat>, nb: nat, changed: bool)
      requires Shaped() && |o| == |sinkDist| && current < |o| && nb < |o|
      requires SentFrom(o, prev, nbs, current, sender, sent) && |a| == |o|
      requires forall k :: 0 <= k < |o| && k != nb ==> a[k] == prev[k]
      requires Advanced(prev[nb], a[nb]) && (changed <==> Changed(prev[nb], a[nb]))
      requires a[nb] != prev[nb] ==> nb + 1 in nbs && sender != Some(nb) && sinkDist[nb] > sinkDist[current]
      ensures SentFrom(o, a, nbs, current, sender, if changed then sent + [nb] else sent)
    {
      AdvancedTrans(o[nb], prev[nb], a[nb]);
      if a[nb] != prev[nb] {
        AdvancedChanged(prev[nb], a[nb]);
      }
      if a[nb] != o[nb] {
        AdvancedChanged(o[nb], a[nb]);
      }
      var sent' := if changed then sent + [nb] else sent;
      forall y | y in sent' ensures y < |o| && Changed(o[y], a[y]) {
        if y != nb {
          assert y in sent;
        } else if !changed {
          assert y in sent;
        }
      }
    }

    /** One queue entry of step 3: every neighbour of current other than the sender is
        offered current's paths; the neighbours whose state changed are returned to be
        queued with current as their sender. */
    method PropagateFrom(ghost start: seq<SensorState>, ghost marks: seq<nat>, current: nat, sender: Option<nat>)
      returns (r: Result<seq<nat>>, ghost marks': seq<nat>)
      requires Valid() && |start| == |nodes| && Propagation(start, nodes, marks)
      requires current < |nodes| && (sender.Some? ==> sender.value < |nodes|)
      modifies this
      ensures Valid() && averds == old(averds) && |nodes| == |old(nodes)|
      ensures r.Success? ==> Propagation(start, nodes, marks')
      ensures r.Success? ==> SentFrom(old(nodes), nodes, old(nodes[current].neighbors), current, sender, r.value)
      ensures r.Failure? ==> r.error == NotFound || r.error == ZeroDivision
    {
      var n := |nodes|;
      var nbs := nodes[current].neighbors;
      var sent: seq<nat> := [];
      marks' := marks;
      for x := 0 to |nbs|
        invariant Valid() && averds == old(averds) && |nodes| == n
        invariant Propagation(start, nodes, marks')
        invariant nodes[current] == old(nodes[current])
        invariant SentFrom(old(nodes), nodes, nbs, current, sender, sent)
      {
        if sender.Some? && nbs[x] == nodes[sender.value].id {
          continue;
        }
        var found := GetNodeById(nbs[x]);
        var nb := found.value;
        ghost var prev := nodes;
        var offered;
        offered, marks' := Offer(start, marks', current, nb);
        if offered.Failure? {
          return Failure(offered.error), marks';
        }
        assert nbs[x] in nbs;
        SentStep(old(nodes), prev, nodes, nbs, current, sender, sent, nb, offered.value);
        if offered.value {
          sent := sent + [nb];
        }
      }
      return Success(sent), marks';
    }
  
    /** Step 3: the nodes with P within D0 start from their Tu; every entry taken from
        the queue offers its table to its neighbours, and the neighbours that changed are
        queued with it as their sender.  At most fuel entries are taken from the queue. */
    method Step3RoutingPropagation(fuel: nat) returns (r: Result<()>, ghost marks: seq<nat>)
      requires Valid()
      modifies this
      ensures Valid() && averds == old(averds) && |nodes| == |old(nodes)|
      ensures r.Success? ==> Propagation(Seeding(old(nodes)), nodes, marks)
      ensures r.Success? ==> forall k :: 0 <= k < |nodes| && old(nodes[k]).p.Some? ==>
                nodes[k].p == old(nodes[k]).p &&
                (if sinkDist[k] <= d0 then old(nodes[k]).tu else old(nodes[k]).tv) <= nodes[k].tv
      ensures r.Failure? ==> r.error == NotFound || r.error == ZeroDivision
    {
      var n := |nodes|;
      var queue: seq<(nat, Option<nat>)> := SeedTables();
      ghost var start := nodes;
      marks := seq(n, k requires 0 <= k < n => |start[k].tv|);
      var steps := fuel;
      while queue != [] && steps > 0
        invariant Valid() && averds == old(averds) && |nodes| == n
        invariant Propagation(start, nodes, marks)
        invariant forall e :: e in queue ==> e.0 < n && (e.1.Some? ==> e.1.value < n)
        decreases steps
      {
        var current: nat, sender: Option<nat> := queue[0].0, queue[0].1;
        queue := queue[1..];
        steps := steps - 1;
        var sent;
        sent, marks := PropagateFrom(start, marks, current, sender);
        if sent.Failure? {
          return Failure(sent.error), marks;
        }
        var next := seq(|sent.value|, i requires 0 <= i < |sent.value| => (sent.value[i], Some(current)));
        assert forall i :: 0 <= i < |next| ==> sent.value[i] in sent.value;
        queue := queue + next;
      }
      return Success(()), marks;
    }
  }
}
