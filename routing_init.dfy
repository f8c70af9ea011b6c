/** Initialization/routing_path.py: the maximum P-hop broadcast over a neighbour graph.
    Starting from the sink, every sensor node receives the paths of a neighbour, prepends
    its own id, fixes its hop bound P on first receipt, and forwards its table to its
    other sensor neighbours whenever the table changed. */
module RoutingInit {
  import opened Results
  import RoutingEssentials

  type NodeId = int

  /** A path [v, ..., sink] of node ids. */
  type Path = seq<NodeId>

  /** routing_table[v] = {"paths": ..., "P": ...}. */
  datatype Entry = Entry(paths: seq<Path>, p: Option<int>)

  /** The routing fields of a node object (routing_paths and P). */
  class RoutedNode {
    const nodeId: NodeId
    var routingPaths: seq<Path>
    var p: Option<int>

    constructor (id: NodeId)
      ensures nodeId == id && routingPaths == [] && p == None
    {
      nodeId := id;
      routingPaths := [];
      p := None;
    }
  }

  /** A neighbour graph as networkx gives it: the neighbours of a node are listed once
      each and are themselves nodes of the graph. */
  predicate IsGraph(adj: map<NodeId, seq<NodeId>>)
  {
    forall u :: u in adj ==> RoutingEssentials.NoDuplicates(adj[u]) && forall x :: x in adj[u] ==> x in adj
  }

  /** The P the table holds for v, and None when v has no entry. */
  function POf(table: map<NodeId, Entry>, v: NodeId): Option<int>
  {
    if v in table then table[v].p else None
  }

  /** The number of hops of the longest path, len(path) - 1, and 0 for no paths. */
  function MaxHops(paths: seq<Path>): (h: int)
    ensures |paths| == 0 ==> h == 0
    ensures forall q :: 0 <= q < |paths| ==> |paths[q]| - 1 <= h
    ensures |paths| > 0 ==> exists q :: 0 <= q < |paths| && |paths[q]| - 1 == h
    decreases |paths|
  {
    if |paths| == 0 then 0
    else if |paths| == 1 then |paths[0]| - 1
    else
      var h := MaxHops(paths[..|paths| - 1]);
      var last := |paths[|paths| - 1]| - 1;
      assert forall q :: 0 <= q < |paths| - 1 ==> paths[q] == paths[..|paths| - 1][q];
      if last > h then last else h
  }

  function Sum(ids: seq<NodeId>, dist: map<NodeId, real>): real
    requires forall q :: 0 <= q < |ids| ==> ids[q] in dist
  {
    if |ids| == 0 then 0.0
    else
      Sum(ids[..|ids| - 1], dist) + dist[ids[|ids| - 1]]
  }

  /** avg_ds: the mean distance to the sink over all sensor nodes, and 1.0 for none. */
  function MeanDistance(ids: seq<NodeId>, dist: map<NodeId, real>): real
    requires forall q :: 0 <= q < |ids| ==> ids[q] in dist
  {
    if |ids| > 0 then Sum(ids, dist) / |ids| as real else 1.0
  }

  /** f(n, d) = n + ceil(d / avg_ds), dividing by 1.0 instead when avg_ds is not positive. */
  function HopBound(n: int, d: real, avg: real): (bound: int)
    ensures d >= 0.0 ==> bound >= n
    ensures avg > 0.0 ==> n as real + d / avg <= bound as real < n as real + d / avg + 1.0
    ensures avg <= 0.0 ==> n as real + d <= bound as real < n as real + d + 1.0
  {
    n + RoutingEssentials.Ceil(d / (if avg > 0.0 then avg else 1.0))
  }

  /** path runs from v to the sink. */
  predicate FromTo(path: Path, v: NodeId, sink: NodeId)
  {
    |path| >= 1 && path[0] == v && path[|path| - 1] == sink
  }

  /** The paths the table holds for v, and none when v has no entry
      (routing_table.get(v, {"paths": []})["paths"]). */
  function PathsOf(table: map<NodeId, Entry>, v: NodeId): seq<Path>
  {
    if v in table then table[v].paths else []
  }

  /** What the routing table keeps true: the sink's entry is [[sink]] with P = 0, the other
      entries belong to sensor nodes, no path list repeats a path, every path of v runs
      from v to the sink, and the paths of v from index marks[v] on, those added after its
      P was fixed, have at most P hops. */
  ghost predicate TableOK(table: map<NodeId, Entry>, marks: map<NodeId, nat>, sink: NodeId, sensors: set<NodeId>)
  {
    sink in table && table[sink] == Entry([[sink]], Some(0)) &&
    (forall v :: v in table && v != sink ==> v in sensors) &&
    (forall v :: v in table ==> RoutingEssentials.NoDuplicates(table[v].paths)) &&
    (forall v, q :: v in table && 0 <= q < |table[v].paths| ==> FromTo(table[v].paths[q], v, sink)) &&
    (forall v :: v in table && v != sink && table[v].p.Some? ==>
       v in marks && marks[v] <= |table[v].paths| &&
       forall q :: marks[v] <= q < |table[v].paths| ==> |table[v].paths[q]| - 1 <= table[v].p.value)
  }

  lemma PrependInjective(v: NodeId, a: Path, b: Path)
    ensures [v] + a == [v] + b ==> a == b
  {
    if [v] + a == [v] + b {
      assert a == ([v] + a)[1..];
    }
  }

  /** The first-receipt loop: the sender's paths with v prepended, each kept once. */
  method PrependAll(tu: seq<Path>, v: NodeId) returns (tv: seq<Path>)
    ensures RoutingEssentials.NoDuplicates(tv)
    ensures forall y :: y in tv <==> exists q :: 0 <= q < |tu| && y == [v] + tu[q]
  {
    tv := [];
    for x := 0 to |tu|
      invariant RoutingEssentials.NoDuplicates(tv)
      invariant forall y :: y in tv <==> exists q :: 0 <= q < x && y == [v] + tu[q]
    {
      var newPath := [v] + tu[x];
      if newPath !in tv {
        tv := tv + [newPath];
      }
    }
  }

  /** The paths of the sender with v prepended that have at most P hops and are not yet
      stored for v. */
  method Candidates(tu: seq<Path>, v: NodeId, bound: int, stored: seq<Path>) returns (cands: seq<Path>)
    ensures forall y :: y in cands <==>
              exists q :: 0 <= q < |tu| && |tu[q]| - 1 <= bound - 1 && y == [v] + tu[q] && y !in stored
    ensures RoutingEssentials.NoDuplicates(tu) ==> RoutingEssentials.NoDuplicates(cands)
  {
    cands := [];
    for x := 0 to |tu|
      invariant forall y :: y in cands <==>
                  exists q :: 0 <= q < x && |tu[q]| - 1 <= bound - 1 && y == [v] + tu[q] && y !in stored
      invariant RoutingEssentials.NoDuplicates(tu) ==> RoutingEssentials.NoDuplicates(cands)
    {
      var hops := |tu[x]| - 1;
      if hops <= bound - 1 {
        var newPath := [v] + tu[x];
        if newPath !in stored {
          assert RoutingEssentials.NoDuplicates(tu) ==> newPath !in cands by {
            if RoutingEssentials.NoDuplicates(tu) && newPath in cands {
              var q :| 0 <= q < x && |tu[q]| - 1 <= bound - 1 && newPath == [v] + tu[q] && newPath !in stored;
              PrependInjective(v, tu[q], tu[x]);
            }
          }
          cands := cands + [newPath];
        }
      }
    }
  }

  lemma FirstReceiptOK(table: map<NodeId, Entry>, marks: map<NodeId, nat>, sink: NodeId, sensors: set<NodeId>,
                       v: NodeId, pv: int, tv: seq<Path>)
    requires TableOK(table, marks, sink, sensors) && v in sensors && v != sink
    requires RoutingEssentials.NoDuplicates(tv) && forall y :: y in tv ==> FromTo(y, v, sink)
    ensures TableOK(table[v := Entry(tv, Some(pv))], marks[v := |tv|], sink, sensors)
  {
    var t := table[v := Entry(tv, Some(pv))];
    forall w, q | w in t && 0 <= q < |t[w].paths| ensures FromTo(t[w].paths[q], w, sink) {
      if w == v {
        assert t[w].paths[q] in tv;
      }
    }
  }

  lemma AddCandidatesOK(table: map<NodeId, Entry>, marks: map<NodeId, nat>, sink: NodeId, sensors: set<NodeId>,
                        v: NodeId, cands: seq<Path>)
    requires TableOK(table, marks, sink, sensors) && v in table && v != sink && table[v].p.Some?
    requires RoutingEssentials.NoDuplicates(cands)
    requires forall y :: y in cands ==> FromTo(y, v, sink) && |y| - 1 <= table[v].p.value && y !in table[v].paths
    ensures TableOK(table[v := table[v].(paths := table[v].paths + cands)], marks, sink, sensors)
  {
    var old_ := table[v].paths;
    var t := table[v := table[v].(paths := old_ + cands)];
    forall q | 0 <= q < |t[v].paths| ensures FromTo(t[v].paths[q], v, sink) {
      if q >= |old_| {
        assert t[v].paths[q] == cands[q - |old_|];
        assert cands[q - |old_|] in cands;
      }
    }
    forall q | marks[v] <= q < |t[v].paths| ensures |t[v].paths[q]| - 1 <= t[v].p.value {
      if q >= |old_| {
        assert cands[q - |old_|] in cands;
      }
    }
    forall a, b | 0 <= a < b < |t[v].paths| ensures t[v].paths[a] != t[v].paths[b] {
      if b >= |old_| {
        assert cands[b - |old_|] in cands;
        if a < |old_| {
          assert t[v].paths[a] in old_;
        }
      }
    }
  }

  lemma NewEntryOK(table: map<NodeId, Entry>, marks: map<NodeId, nat>, sink: NodeId, sensors: set<NodeId>, v: NodeId)
    requires TableOK(table, marks, sink, sensors) && v in sensors && v != sink
    ensures TableOK(table[v := Entry([], None)], marks, sink, sensors)
  {
  }

  /** First receipt: P is fixed as f(n, d_vs) with n the most hops among the sender's
      paths, and the receiver's list becomes the sender's paths with its id prepended, each
      once.  The node object gets the new P and a copy of the list. */
  method FirstReceipt(vNode: RoutedNode, dvs: real, avg: real, sink: NodeId, sensors: set<NodeId>,
                      table: map<NodeId, Entry>, ghost marks: map<NodeId, nat>, sender: NodeId, receiver: NodeId)
    returns (t: map<NodeId, Entry>, ghost marks': map<NodeId, nat>)
    requires TableOK(table, marks, sink, sensors) && receiver in sensors && receiver != sink
    modifies vNode
    ensures TableOK(t, marks', sink, sensors)
    ensures t.Keys == table.Keys + {receiver}
    ensures forall v :: v in table && v != receiver ==> t[v] == table[v]
    ensures t[receiver].p == Some(HopBound(MaxHops(PathsOf(table, sender)), dvs, avg))
    ensures forall y :: y in t[receiver].paths <==>
              exists q :: 0 <= q < |PathsOf(table, sender)| && y == [receiver] + PathsOf(table, sender)[q]
    ensures vNode.p == t[receiver].p && vNode.routingPaths == t[receiver].paths
  {
    var tu := PathsOf(table, sender);
    assert forall q :: 0 <= q < |tu| ==> FromTo(tu[q], sender, sink);
    var n := MaxHops(tu);
    var pv := HopBound(n, dvs, avg);
    t := table[receiver := Entry([], Some(pv))];
    vNode.p := Some(pv);
    var tv := PrependAll(tu, receiver);
    forall y | y in tv ensures FromTo(y, receiver, sink) {
      var q :| 0 <= q < |tu| && y == [receiver] + tu[q];
    }
    FirstReceiptOK(table, marks, sink, sensors, receiver, pv, tv);
    assert [] + tv == tv;
    t := t[receiver := t[receiver].(paths := t[receiver].paths + tv)];
    vNode.routingPaths := t[receiver].paths;
    marks' := marks[receiver := |tv|];
  }

  /** Later receipts: the sender's paths with the receiver's id prepended that have at most
      P hops and are not stored yet are appended; the node object gets a copy of the list
      when anything was added. */
  method AddNewPaths(vNode: RoutedNode, sink: NodeId, sensors: set<NodeId>,
                     table: map<NodeId, Entry>, ghost marks: map<NodeId, nat>, sender: NodeId, receiver: NodeId)
    returns (t: map<NodeId, Entry>, changed: bool)
    requires TableOK(table, marks, sink, sensors) && receiver in table && receiver != sink
    requires table[receiver].p.Some?
    modifies vNode
    ensures TableOK(t, marks, sink, sensors)
    ensures t.Keys == table.Keys
    ensures forall v :: v in table && v != receiver ==> t[v] == table[v]
    ensures t[receiver].p == table[receiver].p && table[receiver].paths <= t[receiver].paths
    ensures forall y :: y in t[receiver].paths <==>
              (y in table[receiver].paths ||
               exists q :: 0 <= q < |PathsOf(table, sender)| && |PathsOf(table, sender)[q]| <= table[receiver].p.value &&
                           y == [receiver] + PathsOf(table, sender)[q])
    ensures changed <==> t[receiver] != table[receiver]
    ensures vNode.p == old(vNode.p)
    ensures vNode.routingPaths == if changed then t[receiver].paths else old(vNode.routingPaths)
  {
    t := table;
    changed := false;
    var tu := PathsOf(table, sender);
    assert forall q :: 0 <= q < |tu| ==> FromTo(tu[q], sender, sink);
    var pv := table[receiver].p.value;
    var stored := table[receiver].paths;
    var cands := Candidates(tu, receiver, pv, stored);
    forall y | y in cands ensures FromTo(y, receiver, sink) && |y| - 1 <= pv && y !in stored {
      var q :| 0 <= q < |tu| && |tu[q]| - 1 <= pv - 1 && y == [receiver] + tu[q] && y !in stored;
    }
    if cands != [] {
      AddCandidatesOK(table, marks, sink, sensors, receiver, cands);
      t := table[receiver := table[receiver].(paths := stored + cands)];
      assert cands[0] in t[receiver].paths && cands[0] !in stored;
      vNode.routingPaths := t[receiver].paths;
      changed := true;
    }
  }

  /** The table update for a sensor receiver, by whether its P is fixed yet. */
  method UpdateEntry(nodes: map<NodeId, RoutedNode>, dist: map<NodeId, real>, avg: real, sink: NodeId,
                     table: map<NodeId, Entry>, ghost marks: map<NodeId, nat>, sender: NodeId, receiver: NodeId)
    returns (t: map<NodeId, Entry>, changed: bool, ghost marks': map<NodeId, nat>)
    requires sink !in nodes && nodes.Keys <= dist.Keys && receiver in nodes
    requires TableOK(table, marks, sink, nodes.Keys)
    modifies nodes[receiver]
    ensures TableOK(t, marks', sink, nodes.Keys)
    ensures receiver in t && t.Keys == table.Keys + {receiver}
    ensures forall v :: v in table && v != receiver ==> t[v] == table[v]
    ensures changed <==> receiver !in table || t[receiver] != table[receiver]
    ensures receiver in table && table[receiver].p.Some? ==>
              t[receiver].p == table[receiver].p && table[receiver].paths <= t[receiver].paths
    ensures receiver !in table || table[receiver].p.None? ==>
              t[receiver].p == Some(HopBound(MaxHops(PathsOf(table, sender)), dist[receiver], avg)) &&
              (forall y :: y in t[receiver].paths <==>
                 exists q :: 0 <= q < |PathsOf(table, sender)| && y == [receiver] + PathsOf(table, sender)[q])
    ensures nodes[receiver].p == if receiver !in table || table[receiver].p.None? then t[receiver].p
                                 else old(nodes[receiver].p)
    ensures nodes[receiver].routingPaths == if changed then t[receiver].paths else old(nodes[receiver].routingPaths)
  {
    var vNode := nodes[receiver];
    if receiver !in table || table[receiver].p.None? {
      t, marks' := FirstReceipt(vNode, dist[receiver], avg, sink, nodes.Keys, table, marks, sender, receiver);
      changed := true;
    } else {
      t, changed := AddNewPaths(vNode, sink, nodes.Keys, table, marks, sender, receiver);
      marks' := marks;
    }
  }

  /** The forwarding loop after a change: every sensor neighbour of the receiver other
      than the sender gets an empty entry if it had none and is queued with the receiver
      as its sender.  A receiver missing from the graph makes G.neighbors fail. */
  method Forward(nodes: map<NodeId, RoutedNode>, adj: map<NodeId, seq<NodeId>>, sink: NodeId,
                 table: map<NodeId, Entry>, ghost marks: map<NodeId, nat>, sender: NodeId, receiver: NodeId)
    returns (r: Result<(map<NodeId, Entry>, seq<(NodeId, NodeId)>)>)
    requires sink !in nodes && TableOK(table, marks, sink, nodes.Keys)
    ensures r.Failure? <==> receiver !in adj
    ensures r.Failure? ==> r.error == NotFound
    ensures r.Success? ==> TableOK(r.value.0, marks, sink, nodes.Keys)
    ensures r.Success? ==> forall v :: v in table ==> v in r.value.0 && r.value.0[v] == table[v]
    ensures r.Success? ==> forall v :: v in r.value.0 && v !in table ==> r.value.0[v] == Entry([], None)
    ensures r.Success? ==> forall e :: e in r.value.1 ==>
              e.0 == receiver && e.1 in adj[receiver] && e.1 != sender && e.1 in nodes && e.1 in r.value.0
    ensures r.Success? ==> forall x :: x in adj[receiver] && x != sender && x in nodes ==> (receiver, x) in r.value.1
  {
    if receiver !in adj {
      return Failure(NotFound);
    }
    var t := table;
    var sent: seq<(NodeId, NodeId)> := [];
    var nbrs := adj[receiver];
    for x := 0 to |nbrs|
      invariant TableOK(t, marks, sink, nodes.Keys)
      invariant forall v :: v in table ==> v in t && t[v] == table[v]
      invariant forall v :: v in t && v !in table ==> t[v] == Entry([], None)
      invariant forall e :: e in sent ==> e.0 == receiver && e.1 in nbrs && e.1 != sender && e.1 in nodes && e.1 in t
      invariant forall y :: 0 <= y < x && nbrs[y] != sender && nbrs[y] in nodes ==> (receiver, nbrs[y]) in sent
    {
      var nbr := nbrs[x];
      if nbr == sender {
        continue;
      }
      if nbr in nodes {
        if nbr !in t {
          NewEntryOK(t, marks, sink, nodes.Keys, nbr);
          t := t[nbr := Entry([], None)];
        }
        sent := sent + [(receiver, nbr)];
      }
    }
    return Success((t, sent));
  }

  /** One (sender, receiver) entry of the broadcast queue: a receiver that is not a sensor
      node is skipped; otherwise its entry is updated and, when it changed, the update is
      forwarded. */
  method Receive(nodes: map<NodeId, RoutedNode>, adj: map<NodeId, seq<NodeId>>, dist: map<NodeId, real>,
                 avg: real, sink: NodeId, table: map<NodeId, Entry>, ghost marks: map<NodeId, nat>,
                 sender: NodeId, receiver: NodeId)
    returns (r: Result<(map<NodeId, Entry>, seq<(NodeId, NodeId)>)>, ghost marks': map<NodeId, nat>)
    requires sink !in nodes && nodes.Keys <= dist.Keys
    requires TableOK(table, marks, sink, nodes.Keys)
    modifies set v | v in nodes && v == receiver :: nodes[v]
    ensures r.Failure? ==> r.error == NotFound && receiver !in adj
    ensures r.Success? ==> TableOK(r.value.0, marks', sink, nodes.Keys)
    ensures receiver !in nodes ==> r == Success((table, []))
    ensures r.Success? ==> forall v :: v in table ==> v in r.value.0
    ensures r.Success? ==> forall v :: v in table && v != receiver ==> r.value.0[v] == table[v]
    ensures r.Success? ==> forall v :: v in r.value.0 && v !in table && v != receiver ==> r.value.0[v] == Entry([], None)
    ensures r.Success? ==> forall v :: v in table && table[v].p.Some? ==>
              r.value.0[v].p == table[v].p && table[v].paths <= r.value.0[v].paths
    ensures r.Success? ==> forall e :: e in r.value.1 ==>
              e.0 == receiver && receiver in adj && e.1 in adj[receiver] && e.1 != sender &&
              e.1 in nodes && e.1 in r.value.0
    ensures r.Success? && r.value.1 != [] ==> receiver !in table || r.value.0[receiver] != table[receiver]
    ensures r.Success? && receiver in nodes && (receiver !in table || table[receiver].p.None?) ==>
              receiver in r.value.0 &&
              r.value.0[receiver].p == Some(HopBound(MaxHops(PathsOf(table, sender)), dist[receiver], avg)) &&
              (forall y :: y in r.value.0[receiver].paths <==>
                 exists q :: 0 <= q < |PathsOf(table, sender)| && y == [receiver] + PathsOf(table, sender)[q])
    ensures r.Success? && receiver in nodes ==>
              receiver in r.value.0 &&
              nodes[receiver].routingPaths ==
                (if receiver in table && r.value.0[receiver] == table[receiver] then old(nodes[receiver].routingPaths)
                 else r.value.0[receiver].paths) &&
              nodes[receiver].p ==
                (if receiver !in table || table[receiver].p.None? then r.value.0[receiver].p else old(nodes[receiver].p))
  {
    if receiver !in nodes {
      return Success((table, [])), marks;
    }
    var t, changed;
    t, changed, marks' := UpdateEntry(nodes, dist, avg, sink, table, marks, sender, receiver);
    if !changed {
      return Success((t, [])), marks';
    }
    r := Forward(nodes, adj, sink, t, marks', sender, receiver);
  }

  /** Every entry of before is still there; one whose P was fixed keeps it and keeps its
      paths as a prefix. */
  ghost predicate Kept(before: map<NodeId, Entry>, after: map<NodeId, Entry>)
  {
    forall v :: v in before ==>
      v in after && (before[v].p.Some? ==> after[v].p == before[v].p && before[v].paths <= after[v].paths)
  }

  lemma KeptTrans(a: map<NodeId, Entry>, b: map<NodeId, Entry>, c: map<NodeId, Entry>)
    requires Kept(a, b) && Kept(b, c)
    ensures Kept(a, c)
  {
    forall v | v in a && a[v].p.Some? ensures a[v].paths <= c[v].paths {
      PrefixTrans(a[v].paths, b[v].paths, c[v].paths);
    }
  }

  lemma PrefixIn<T>(x: T, a: seq<T>, b: seq<T>)
    requires x in a && a <= b
    ensures x in b
  {
    var k :| 0 <= k < |a| && a[k] == x;
    assert b[k] == x;
  }

  lemma PrefixTrans<T>(a: seq<T>, b: seq<T>, c: seq<T>)
    requires a <= b && b <= c
    ensures a <= c
  {
    assert a == b[..|a|] && b == c[..|b|];
    assert c[..|b|][..|a|] == c[..|a|];
  }

  /** After i entries of the queue: the seeds not yet taken head the queue as (sink, x) and
      their entries still hold only [x, sink]; the ones taken have P = f(0, d_xs) and the
      path [x, sink]. */
  ghost predicate SeedsState(t: map<NodeId, Entry>, q: seq<(NodeId, NodeId)>, seeds: seq<NodeId>, i: nat,
                             sink: NodeId, dist: map<NodeId, real>, avg: real)
  {
    (i <= |seeds| ==>
       |seeds| - i <= |q| &&
       forall j :: i <= j < |seeds| ==>
         seeds[j] in t && q[j - i] == (sink, seeds[j]) && t[seeds[j]] == Entry([[seeds[j], sink]], None)) &&
    (forall j :: 0 <= j < |seeds| && j < i ==>
       seeds[j] in t && seeds[j] in dist &&
       t[seeds[j]].p == Some(HopBound(0, dist[seeds[j]], avg)) && [seeds[j], sink] in t[seeds[j]].paths)
  }

  /** Taking queue entry i keeps SeedsState: a seed entry (sink, x) gives x its P and its
      direct path, and leaves the other entries alone. */
  lemma SeedsNext(t: map<NodeId, Entry>, t': map<NodeId, Entry>, q: seq<(NodeId, NodeId)>,
                  sent: seq<(NodeId, NodeId)>, seeds: seq<NodeId>, i: nat,
                  sink: NodeId, dist: map<NodeId, real>, avg: real)
    requires q != [] && RoutingEssentials.NoDuplicates(seeds) && SeedsState(t, q, seeds, i, sink, dist, avg)
    requires Kept(t, t') && forall v :: v in t && v != q[0].1 ==> t'[v] == t[v]
    requires i < |seeds| ==>
               seeds[i] in dist && seeds[i] in t' && t'[seeds[i]].p == Some(HopBound(0, dist[seeds[i]], avg)) &&
               [seeds[i], sink] in t'[seeds[i]].paths
    ensures SeedsState(t', q[1..] + sent, seeds, i + 1, sink, dist, avg)
  {
    var q' := q[1..] + sent;
    forall j | 0 <= j < |seeds| && j < i
      ensures seeds[j] in t' && t'[seeds[j]].p == t[seeds[j]].p && [seeds[j], sink] in t'[seeds[j]].paths
    {
      var x := seeds[j];
      assert x in t && t[x].p.Some? && [x, sink] in t[x].paths;
      assert x in t' && t'[x].p == t[x].p && t[x].paths <= t'[x].paths;
      PrefixIn([x, sink], t[x].paths, t'[x].paths);
    }
    if i < |seeds| {
      forall j | i + 1 <= j < |seeds|
        ensures seeds[j] in t' && q'[j - (i + 1)] == (sink, seeds[j]) && t'[seeds[j]] == Entry([[seeds[j], sink]], None)
      {
        assert q[0] == (sink, seeds[i]) && seeds[j] != seeds[i];
        assert q'[j - (i + 1)] == q[j - i];
      }
    }
  }

  /** One entry taken from the queue and processed. */
  method Take(nodes: map<NodeId, RoutedNode>, adj: map<NodeId, seq<NodeId>>, dist: map<NodeId, real>,
              avg: real, sink: NodeId, t: map<NodeId, Entry>, ghost marks: map<NodeId, nat>,
              q: seq<(NodeId, NodeId)>, ghost seeds: seq<NodeId>, ghost i: nat)
    returns (t': map<NodeId, Entry>, ghost marks': map<NodeId, nat>, q': seq<(NodeId, NodeId)>)
    requires sink !in nodes && nodes.Keys <= dist.Keys && IsGraph(adj)
    requires TableOK(t, marks, sink, nodes.Keys)
    requires q != [] && forall e :: e in q ==> e.1 in adj
    requires RoutingEssentials.NoDuplicates(seeds) && SeedsState(t, q, seeds, i, sink, dist, avg)
    requires forall j :: 0 <= j < |seeds| ==> seeds[j] in nodes
    modifies set v | v in nodes :: nodes[v]
    ensures TableOK(t', marks', sink, nodes.Keys) && Kept(t, t')
    ensures forall e :: e in q' ==> e.1 in adj
    ensures SeedsState(t', q', seeds, i + 1, sink, dist, avg)
  {
    var sender, receiver := q[0].0, q[0].1;
    assert q[0] in q;
    var res;
    res, marks' := Receive(nodes, adj, dist, avg, sink, t, marks, sender, receiver);
    if res.Failure? {
      assert false;
    }
    t' := res.value.0;
    if i < |seeds| {
      assert seeds[i] in t && q[i - i] == (sink, seeds[i]);
      assert sender == sink && receiver == seeds[i] && receiver in nodes;
      assert t[sink].paths == [[sink]];
      assert MaxHops([[sink]]) == 0;
      assert [receiver, sink] == [receiver] + [[sink]][0];
    }
    SeedsNext(t, t', q, res.value.1, seeds, i, sink, dist, avg);
    forall e | e in res.value.1 ensures e.1 in adj {
      assert e.1 in adj[receiver];
    }
    q' := q[1..] + res.value.1;
  }

  /** The broadcast loop: entries are taken from the front of the queue and the pairs a
      receiver forwards to are appended at the back.  The queue starts with (sink, x) for
      the seeded neighbours x of the sink, whose entries hold only [x, sink]; once these
      have been taken, each of them has P = f(0, d_xs) and keeps the path [x, sink].
      At most fuel entries are taken from the queue. */
  method Propagate(nodes: map<NodeId, RoutedNode>, adj: map<NodeId, seq<NodeId>>, dist: map<NodeId, real>,
                   avg: real, sink: NodeId, table: map<NodeId, Entry>, ghost marks: map<NodeId, nat>,
                   queue: seq<(NodeId, NodeId)>, ghost seeds: seq<NodeId>, fuel: nat)
    returns (t: map<NodeId, Entry>, ghost marks': map<NodeId, nat>)
    requires sink !in nodes && nodes.Keys <= dist.Keys && IsGraph(adj)
    requires TableOK(table, marks, sink, nodes.Keys)
    requires forall e :: e in queue ==> e.1 in adj
    requires |seeds| <= |queue| && RoutingEssentials.NoDuplicates(seeds)
    requires forall j :: 0 <= j < |seeds| ==>
               queue[j] == (sink, seeds[j]) && seeds[j] in nodes &&
               seeds[j] in table && table[seeds[j]] == Entry([[seeds[j], sink]], None)
    modifies set v | v in nodes :: nodes[v]
    ensures TableOK(t, marks', sink, nodes.Keys) && Kept(table, t)
    ensures fuel >= |seeds| ==> forall j :: 0 <= j < |seeds| ==>
              seeds[j] in t && seeds[j] in dist &&
              t[seeds[j]].p == Some(HopBound(0, dist[seeds[j]], avg)) && [seeds[j], sink] in t[seeds[j]].paths
  {
    t, marks' := table, marks;
    var q := queue;
    var steps := fuel;
    ghost var i: nat := 0;
    while q != [] && steps > 0
      invariant TableOK(t, marks', sink, nodes.Keys) && Kept(table, t)
      invariant forall e :: e in q ==> e.1 in adj
      invariant steps + i == fuel
      invariant SeedsState(t, q, seeds, i, sink, dist, avg)
      decreases steps
    {
      ghost var before := t;
      t, marks', q := Take(nodes, adj, dist, avg, sink, t, marks', q, seeds, i);
      KeptTrans(table, before, t);
      steps := steps - 1;
      i := i + 1;
    }
  }

  /** The seeded part of the table: the sink's entry, then for each seed x, in the order of
      the queue, the entry [[x, sink]] without P. */
  ghost predicate SeedInv(t: map<NodeId, Entry>, queue: seq<(NodeId, NodeId)>, seeds: seq<NodeId>,
                          sink: NodeId, sensors: set<NodeId>)
  {
    TableOK(t, map[], sink, sensors) &&
    |queue| == |seeds| && RoutingEssentials.NoDuplicates(seeds) &&
    (forall j :: 0 <= j < |seeds| ==>
       queue[j] == (sink, seeds[j]) && seeds[j] in sensors &&
       seeds[j] in t && t[seeds[j]] == Entry([[seeds[j], sink]], None)) &&
    t.Keys == {sink} + set y | y in seeds
  }

  /** One sensor neighbour of the sink: its entry is created, extended with the sink's
      paths with its id prepended, and (sink, x) is queued. */
  method SeedOne(t: map<NodeId, Entry>, queue: seq<(NodeId, NodeId)>, ghost seeds: seq<NodeId>,
                 sink: NodeId, ghost sensors: set<NodeId>, nbr: NodeId)
    returns (t': map<NodeId, Entry>, queue': seq<(NodeId, NodeId)>, ghost seeds': seq<NodeId>)
    requires SeedInv(t, queue, seeds, sink, sensors) && nbr in sensors && nbr !in seeds && nbr != sink
    ensures SeedInv(t', queue', seeds', sink, sensors)
    ensures seeds' == seeds + [nbr] && queue' == queue + [(sink, nbr)]
  {
    t' := t;
    assert nbr !in t;
    if nbr !in t' {
      t' := t'[nbr := Entry([], None)];
    }
    var sinkPaths := t'[sink].paths;
    var newPaths: seq<Path> := [];
    for y := 0 to |sinkPaths|
      invariant newPaths == seq(y, k requires 0 <= k < y => [nbr] + sinkPaths[k])
    {
      newPaths := newPaths + [[nbr] + sinkPaths[y]];
    }
    assert sinkPaths == [[sink]] && [nbr] + [sink] == [nbr, sink];
    assert newPaths == [[nbr, sink]];
    t' := t'[nbr := t'[nbr].(paths := t'[nbr].paths + newPaths)];
    SeedOK(t, sink, sensors, nbr);
    assert [] + newPaths == newPaths;
    queue' := queue + [(sink, nbr)];
    seeds' := seeds + [nbr];
    assert (set y | y in seeds') == (set y | y in seeds) + {nbr};
  }

  /** The sink broadcasts first: every sensor neighbour x of the sink gets the sink's paths
      with x prepended, which is [[x, sink]], and (sink, x) is queued, in the order of the
      sink's neighbours. */
  method SeedQueue(nodes: map<NodeId, RoutedNode>, adj: map<NodeId, seq<NodeId>>, sink: NodeId)
    returns (t: map<NodeId, Entry>, queue: seq<(NodeId, NodeId)>, ghost seeds: seq<NodeId>)
    requires sink !in nodes && IsGraph(adj) && sink in adj
    ensures SeedInv(t, queue, seeds, sink, nodes.Keys) && |seeds| <= |adj[sink]|
    ensures forall e :: e in queue ==> e.1 in adj
    ensures forall x :: x in seeds <==> x in adj[sink] && x in nodes
  {
    t := map[sink := Entry([[sink]], Some(0))];
    queue := [];
    seeds := [];
    var nbrs := adj[sink];
    for x := 0 to |nbrs|
      invariant SeedInv(t, queue, seeds, sink, nodes.Keys) && |seeds| <= x
      invariant forall y :: y in seeds <==> y in nbrs[..x] && y in nodes
    {
      var nbr := nbrs[x];
      assert nbrs[..x + 1] == nbrs[..x] + [nbr];
      if nbr in nodes {
        t, queue, seeds := SeedOne(t, queue, seeds, sink, nodes.Keys, nbr);
      }
    }
    assert nbrs[..|nbrs|] == nbrs;
    assert forall y :: y in seeds ==> y in adj[sink];
    forall e | e in queue ensures e.1 in adj {
      var j :| 0 <= j < |queue| && queue[j] == e;
      assert queue[j] == (sink, seeds[j]) && seeds[j] in seeds;
      assert e.1 == seeds[j] && seeds[j] in adj[sink];
    }
  }

  lemma SeedOK(t: map<NodeId, Entry>, sink: NodeId, sensors: set<NodeId>, nbr: NodeId)
    requires TableOK(t, map[], sink, sensors) && nbr in sensors && nbr != sink
    ensures TableOK(t[nbr := Entry([[nbr, sink]], None)], map[], sink, sensors)
  {
  }

  /** The last loop: every sensor node object gets a copy of its table entry, or no paths
      and no P when it has none. */
  method AssignNodes(nodes: map<NodeId, RoutedNode>, sensors: seq<NodeId>, t: map<NodeId, Entry>)
    requires forall a, b :: a in nodes && b in nodes && a != b ==> nodes[a] != nodes[b]
    requires forall q :: 0 <= q < |sensors| ==> sensors[q] in nodes
    modifies set v | v in nodes :: nodes[v]
    ensures forall q :: 0 <= q < |sensors| ==>
              nodes[sensors[q]].routingPaths == PathsOf(t, sensors[q]) && nodes[sensors[q]].p == POf(t, sensors[q])
    ensures forall v :: v in nodes && v !in sensors ==>
              nodes[v].routingPaths == old(nodes[v].routingPaths) && nodes[v].p == old(nodes[v].p)
  {
    for x := 0 to |sensors|
      invariant forall q :: 0 <= q < x ==>
                  nodes[sensors[q]].routingPaths == PathsOf(t, sensors[q]) && nodes[sensors[q]].p == POf(t, sensors[q])
      invariant forall v :: v in nodes && v !in sensors[..x] ==>
                  nodes[v].routingPaths == old(nodes[v].routingPaths) && nodes[v].p == old(nodes[v].p)
    {
      var nid := sensors[x];
      var node := nodes[nid];
      if nid in t {
        node.routingPaths := t[nid].paths;
        node.p := t[nid].p;
      } else {
        node.routingPaths := [];
        node.p := None;
      }
      assert sensors[..x + 1] == sensors[..x] + [nid];
    }
    assert sensors[..|sensors|] == sensors;
  }

  /** initialize_routing: the sink's entry is [[sink]] with P = 0, the sink broadcasts to
      its sensor neighbours, updates propagate through the graph, and every sensor node
      ends with its table entry.  distances[v] is the distance from v to the sink and
      sensors lists the keys of the sensor dictionary.  The only failure is a sink that is
      not in the graph.  On success the table keeps TableOK, and when fuel covers the
      sink's neighbours, each of its sensor neighbours x has P = ceil(d_xs / avg_ds) and
      the direct path [x, sink]. */
  method InitializeRouting(sinkNode: RoutedNode, sensors: seq<NodeId>, nodes: map<NodeId, RoutedNode>,
                           adj: map<NodeId, seq<NodeId>>, distances: map<NodeId, real>, fuel: nat)
    returns (r: Result<map<NodeId, Entry>>, ghost marks: map<NodeId, nat>)
    requires RoutingEssentials.NoDuplicates(sensors)
    requires forall q :: 0 <= q < |sensors| ==> sensors[q] in nodes
    requires forall v :: v in nodes ==> v in sensors
    requires nodes.Keys <= distances.Keys && sinkNode.nodeId !in nodes && IsGraph(adj)
    requires forall a, b :: a in nodes && b in nodes && a != b ==> nodes[a] != nodes[b]
    requires forall v :: v in nodes ==> nodes[v] != sinkNode
    modifies sinkNode, set v | v in nodes :: nodes[v]
    ensures sinkNode.p == Some(0) && sinkNode.routingPaths == []
    ensures r.Failure? <==> sinkNode.nodeId !in adj
    ensures r.Failure? ==> r.error == NotFound && forall v :: v in nodes ==>
              nodes[v].routingPaths == old(nodes[v].routingPaths) && nodes[v].p == old(nodes[v].p)
    ensures r.Success? ==> TableOK(r.value, marks, sinkNode.nodeId, nodes.Keys)
    ensures r.Success? ==> forall v :: v in nodes ==>
              nodes[v].routingPaths == PathsOf(r.value, v) && nodes[v].p == POf(r.value, v)
    ensures r.Success? ==> forall x :: x in adj[sinkNode.nodeId] && x in nodes ==> x in r.value
    ensures r.Success? && fuel >= |adj[sinkNode.nodeId]| ==> forall x :: x in adj[sinkNode.nodeId] && x in nodes ==>
              r.value[x].p == Some(HopBound(0, distances[x], MeanDistance(sensors, distances))) &&
              [x, sinkNode.nodeId] in r.value[x].paths
  {
    var sink := sinkNode.nodeId;
    assert forall q :: 0 <= q < |sensors| ==> sensors[q] in distances;
    var avg := MeanDistance(sensors, distances);
    sinkNode.p := Some(0);
    sinkNode.routingPaths := [];
    marks := map[];
    if sink !in adj {
      return Failure(NotFound), marks;
    }
    var t, queue, seeds := SeedQueue(nodes, adj, sink);
    var s0 := t;
    t, marks := Propagate(nodes, adj, distances, avg, sink, t, marks, queue, seeds, fuel);
    AssignNodes(nodes, sensors, t);
    forall x | x in adj[sink] && x in nodes ensures x in t {
      assert x in seeds && x in s0;
    }
    if fuel >= |adj[sink]| {
      forall x | x in adj[sink] && x in nodes
        ensures t[x].p == Some(HopBound(0, distances[x], avg)) && [x, sink] in t[x].paths
      {
        var j :| 0 <= j < |seeds| && seeds[j] == x;
      }
    }
    return Success(t), marks;
  }
}
