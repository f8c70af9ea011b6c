/** Message_Transmission/malicious_node_management.py: a node that watches a neighbour
    reports it when the message timed out or was tampered with, and the sink turns the
    reports into anomaly counters gamma and k, sets reputation gamma^-k and broadcasts the
    new values to the neighbours of every node. */
module MaliciousNodes {
  import opened Results
  import opened SensorNodes

  datatype Report = Report(kind: string, reportingNode: int, suspectNode: int, location: Location, timestamp: string)

  const TimeoutReason: string := "Timeout: message not forwarded in time"
  const TamperedReason: string := "Message hash mismatch (tampered)"

  /** The reason given for a suspicion: a timeout is reported as such even when the
      message was also tampered with. */
  function SuspicionReason(tampered: bool, timeout: bool): (reason: Option<string>)
    ensures reason.None? <==> !tampered && !timeout
    ensures timeout ==> reason == Some(TimeoutReason)
    ensures !timeout && tampered ==> reason == Some(TamperedReason)
  {
    if timeout then Some(TimeoutReason)
    else if tampered then Some(TamperedReason)
    else None
  }

  /** detect_malicious_node: an anomaly report exactly when a flag is set, naming the
      reporter, the suspect and the suspect's position.  The message is not consulted. */
  function DetectMaliciousNode(lastNode: SensorNode, currentNode: SensorNode, timestamp: string,
                               tampered: bool, timeout: bool): (r: Option<Report>)
    ensures r.None? <==> !tampered && !timeout
    ensures r.Some? ==> r.value.kind == "Anomaly" && r.value.reportingNode == lastNode.nodeId &&
                        r.value.suspectNode == currentNode.nodeId && r.value.location == currentNode.location &&
                        r.value.timestamp == timestamp
  {
    var reason := SuspicionReason(tampered, timeout);
    if reason.Some? then
      Some(Report("Anomaly", lastNode.nodeId, currentNode.nodeId, currentNode.location, timestamp))
    else None
  }

  // ---------------------------------------------------------------------------
  // Counters and reputation

  function Power(b: nat, e: nat): (p: nat)
    ensures b >= 1 ==> p >= 1
  {
    if e == 0 then 1 else b * Power(b, e - 1)
  }

  /** gamma ** (-k), exactly. */
  function Reputation(gamma: nat, k: nat): real
    requires gamma >= 1
  {
    1.0 / Power(gamma, k) as real
  }

  lemma {:induction false} PowerMono(a: nat, b: nat, e: nat)
    requires 1 <= a <= b
    ensures Power(a, e) <= Power(b, e)
  {
    if e > 0 {
      PowerMono(a, b, e - 1);
      MulLe(a, b, Power(a, e - 1), Power(b, e - 1));
    }
  }

  lemma MulLe(a: nat, b: nat, c: nat, d: nat)
    requires a <= b && c <= d
    ensures a * c <= b * d
  {
    assert a * c <= b * c;
    assert b * c <= b * d;
  }

  lemma InverseAntitone(a: nat, b: nat)
    requires 1 <= a < b
    ensures 1.0 / b as real < 1.0 / a as real
  {
    var x := 1.0 / a as real;
    var y := 1.0 / b as real;
    assert x * a as real == 1.0;
    assert y * b as real == 1.0;
  }

  /** A first report gives reputation 1/2, every report lowers it, and it stays in (0, 1/2]. */
  lemma ReputationSteps(k: nat)
    requires k >= 1
    ensures Reputation(2, 1) == 0.5
    ensures 0.0 < Reputation(k + 1, k) <= 0.5
    ensures Reputation(k + 2, k + 1) < Reputation(k + 1, k)
  {
    PowerMono(k + 1, k + 2, k);
    assert Power(k + 2, k + 1) == (k + 2) * Power(k + 2, k);
    assert Power(k + 2, k + 1) > Power(k + 1, k);
    InverseAntitone(Power(k + 1, k), Power(k + 2, k + 1));
    PowerMono(2, k + 1, k);
    PowerAtLeastTwo(k);
    if Power(k + 1, k) > 2 {
      InverseAntitone(2, Power(k + 1, k));
    }
  }

  lemma {:induction false} PowerAtLeastTwo(k: nat)
    requires k >= 1
    ensures Power(2, k) >= 2
  {
    if k > 1 {
      PowerAtLeastTwo(k - 1);
    }
  }

  // ---------------------------------------------------------------------------
  // update_reputation: the reports

  /** The position of the first node with this id (what `next` over the node list finds). */
  function FirstWithId(nodes: seq<SensorNode>, id: int): (r: Option<nat>)
    ensures r.Some? ==> r.value < |nodes| && nodes[r.value].nodeId == id &&
                        forall j :: 0 <= j < r.value ==> nodes[j].nodeId != id
    ensures r.None? ==> forall j :: 0 <= j < |nodes| ==> nodes[j].nodeId != id
  {
    if |nodes| == 0 then None
    else if nodes[0].nodeId == id then Some(0)
    else match FirstWithId(nodes[1..], id)
      case None => None
      case Some(j) => Some(j + 1)
  }

  /** How many leading reports name a node that exists: the ones applied before `next` fails. */
  function Processed(nodes: seq<SensorNode>, reports: seq<Report>): (n: nat)
    ensures n <= |reports|
    ensures forall i :: 0 <= i < n ==> FirstWithId(nodes, reports[i].suspectNode).Some?
    ensures n < |reports| ==> FirstWithId(nodes, reports[n].suspectNode).None?
  {
    if |reports| == 0 then 0
    else if FirstWithId(nodes, reports[0].suspectNode).None? then 0
    else 1 + Processed(nodes, reports[1..])
  }

  /** Whether a report lands on node object o. */
  predicate Hits(nodes: seq<SensorNode>, report: Report, o: SensorNode)
  {
    var f := FirstWithId(nodes, report.suspectNode);
    f.Some? && nodes[f.value] == o
  }

  /** The number of reports that land on o. */
  function HitCount(nodes: seq<SensorNode>, rs: seq<Report>, o: SensorNode): nat
  {
    if |rs| == 0 then 0
    else HitCount(nodes, rs[..|rs| - 1], o) + if Hits(nodes, rs[|rs| - 1], o) then 1 else 0
  }

  lemma HitCountStep(nodes: seq<SensorNode>, rs: seq<Report>, i: nat, o: SensorNode)
    requires i < |rs|
    ensures HitCount(nodes, rs[..i + 1], o) == HitCount(nodes, rs[..i], o) + if Hits(nodes, rs[i], o) then 1 else 0
  {
    assert rs[..i + 1][..i] == rs[..i];
  }

  function OrElse(v: Option<nat>, d: nat): nat
  {
    if v.Some? then v.value else d
  }

  /** The reputation state of one node. */
  datatype Counters = Counters(gamma: Option<nat>, k: Option<nat>, reputation: real)

  ghost function Snapshot(nodes: seq<SensorNode>): (s: seq<Counters>)
    reads nodes
    ensures |s| == |nodes|
    ensures forall j :: 0 <= j < |nodes| ==> s[j] == Counters(nodes[j].gamma, nodes[j].k, nodes[j].reputation)
  {
    seq(|nodes|, j requires 0 <= j < |nodes| reads nodes => Counters(nodes[j].gamma, nodes[j].k, nodes[j].reputation))
  }

  /** A node's state after h reports on it: gamma from 1 and k from 0 grow by h, and the
      reputation becomes gamma ** (-k). */
  function After(c: Counters, h: nat): (c': Counters)
    ensures h == 0 ==> c' == c
    ensures h > 0 ==> c'.gamma.Some? && c'.k.Some? && c'.k.value >= h
  {
    if h == 0 then c
    else
      var g, k := OrElse(c.gamma, 1) + h, OrElse(c.k, 0) + h;
      Counters(Some(g), Some(k), Reputation(g, k))
  }

  lemma AfterOneMore(c: Counters, h: nat)
    ensures After(After(c, h), 1) == After(c, h + 1)
  {
  }

  /** State s is the start state s0 with the reports rs applied. */
  ghost predicate Applied(nodes: seq<SensorNode>, rs: seq<Report>, s0: seq<Counters>, s: seq<Counters>)
  {
    |s0| == |nodes| && |s| == |nodes| &&
    forall j :: 0 <= j < |nodes| ==> s[j] == After(s0[j], HitCount(nodes, rs, nodes[j]))
  }

  /** The reputation map the sink builds: one entry per reported id, holding the latest
      reputation of the node that id names. */
  ghost predicate UpdatesOK(nodes: seq<SensorNode>, rs: seq<Report>, s: seq<Counters>, updates: map<int, real>)
    requires |s| == |nodes|
  {
    (forall v :: v in updates <==> exists i :: 0 <= i < |rs| && rs[i].suspectNode == v) &&
    forall v :: v in updates ==>
      FirstWithId(nodes, v).Some? && updates[v] == s[FirstWithId(nodes, v).value].reputation
  }

  /** The state after one more report: the node it lands on advances by one. */
  lemma AppliedStep(nodes: seq<SensorNode>, rs: seq<Report>, i: nat, s0: seq<Counters>, s: seq<Counters>,
                    s': seq<Counters>)
    requires i < |rs| && FirstWithId(nodes, rs[i].suspectNode).Some?
    requires Applied(nodes, rs[..i], s0, s) && |s'| == |nodes|
    requires forall j :: 0 <= j < |nodes| ==>
               s'[j] == if Hits(nodes, rs[i], nodes[j]) then After(s[j], 1) else s[j]
    ensures Applied(nodes, rs[..i + 1], s0, s')
  {
    forall j | 0 <= j < |nodes|
      ensures s'[j] == After(s0[j], HitCount(nodes, rs[..i + 1], nodes[j]))
    {
      AppliedAt(nodes, rs, i, nodes[j], s0[j], s[j], s'[j]);
    }
  }

  /** One node's counters after one more report. */
  lemma AppliedAt(nodes: seq<SensorNode>, rs: seq<Report>, i: nat, o: SensorNode,
                  c0: Counters, c: Counters, c': Counters)
    requires i < |rs| && c == After(c0, HitCount(nodes, rs[..i], o))
    requires c' == if Hits(nodes, rs[i], o) then After(c, 1) else c
    ensures c' == After(c0, HitCount(nodes, rs[..i + 1], o))
  {
    HitCountStep(nodes, rs, i, o);
    AfterOneMore(c0, HitCount(nodes, rs[..i], o));
  }

  /** The map entry written for a report stays right: another id names another node. */
  lemma UpdatesStep(nodes: seq<SensorNode>, rs: seq<Report>, i: nat, s: seq<Counters>,
                    s': seq<Counters>, updates: map<int, real>)
    requires i < |rs| && FirstWithId(nodes, rs[i].suspectNode).Some?
    requires |s| == |nodes| && UpdatesOK(nodes, rs[..i], s, updates) && |s'| == |nodes|
    requires forall j :: 0 <= j < |nodes| ==> !Hits(nodes, rs[i], nodes[j]) ==> s'[j] == s[j]
    ensures UpdatesOK(nodes, rs[..i + 1], s',
                      updates[rs[i].suspectNode := s'[FirstWithId(nodes, rs[i].suspectNode).value].reputation])
  {
    var v := rs[i].suspectNode;
    var u := updates[v := s'[FirstWithId(nodes, v).value].reputation];
    UpdatesStepValues(nodes, rs, i, s, s', updates);
    UpdatesStepKeys(rs, i, updates, u);
  }

  lemma UpdatesStepValues(nodes: seq<SensorNode>, rs: seq<Report>, i: nat, s: seq<Counters>,
                          s': seq<Counters>, updates: map<int, real>)
    requires i < |rs| && FirstWithId(nodes, rs[i].suspectNode).Some?
    requires |s| == |nodes| && UpdatesOK(nodes, rs[..i], s, updates) && |s'| == |nodes|
    requires forall j :: 0 <= j < |nodes| ==> !Hits(nodes, rs[i], nodes[j]) ==> s'[j] == s[j]
    ensures var v := rs[i].suspectNode;
            var u := updates[v := s'[FirstWithId(nodes, v).value].reputation];
            forall w :: w in u ==> FirstWithId(nodes, w).Some? && u[w] == s'[FirstWithId(nodes, w).value].reputation
  {
    var v := rs[i].suspectNode;
    var u := updates[v := s'[FirstWithId(nodes, v).value].reputation];
    forall w | w in u
      ensures FirstWithId(nodes, w).Some? && u[w] == s'[FirstWithId(nodes, w).value].reputation
    {
      if w != v {
        var g := FirstWithId(nodes, w).value;
        assert nodes[g].nodeId == w;
        assert !Hits(nodes, rs[i], nodes[g]);
      }
    }
  }

  lemma UpdatesStepKeys(rs: seq<Report>, i: nat, updates: map<int, real>, u: map<int, real>)
    requires i < |rs| && u.Keys == updates.Keys + {rs[i].suspectNode}
    requires forall w :: w in updates <==> Reported(rs[..i], w)
    ensures forall w :: w in u <==> Reported(rs[..i + 1], w)
  {
    var v := rs[i].suspectNode;
    var p, q := rs[..i + 1], rs[..i];
    forall w
      ensures w in u <==> Reported(p, w)
    {
      if w in updates {
        var i' :| 0 <= i' < |q| && q[i'].suspectNode == w;
        assert p[i'] == q[i'];
      }
      if w != v && exists i' :: 0 <= i' < |p| && p[i'].suspectNode == w {
        var i' :| 0 <= i' < |p| && p[i'].suspectNode == w;
        assert q[i'].suspectNode == w;
      }
      assert p[i] == rs[i];
    }
  }

  ghost function NodeSet(nodes: seq<SensorNode>): set<SensorNode>
  {
    set n | n in nodes
  }

  /** One report on v: the counters are created or advanced and the reputation recomputed. */
  method Bump(v: SensorNode)
    modifies v`gamma, v`k, v`reputation
    ensures Counters(v.gamma, v.k, v.reputation) == After(Counters(old(v.gamma), old(v.k), old(v.reputation)), 1)
  {
    if v.gamma.None? {
      v.gamma := Some(1);
    }
    if v.k.None? {
      v.k := Some(1);
    } else {
      v.k := Some(v.k.value + 1);
    }
    v.gamma := Some(v.gamma.value + 1);
    v.reputation := 1.0 / Power(v.gamma.value, v.k.value) as real;
  }

  /** The report loop of update_reputation.  A report whose suspect is not among the nodes
      stops it (`next` raises StopIteration) with the earlier reports applied. */
  method ApplyReports(reports: seq<Report>, nodes: seq<SensorNode>) returns (r: Result<map<int, real>>)
    modifies NodeSet(nodes)`gamma, NodeSet(nodes)`k, NodeSet(nodes)`reputation
    ensures r.Failure? <==> Processed(nodes, reports) < |reports|
    ensures r.Failure? ==> r.error == NotFound
    ensures Applied(nodes, reports[..Processed(nodes, reports)], old(Snapshot(nodes)), Snapshot(nodes))
    ensures r.Success? ==> UpdatesOK(nodes, reports, Snapshot(nodes), r.value)
    ensures r.Success? ==> Applied(nodes, reports, old(Snapshot(nodes)), Snapshot(nodes))
  {
    ghost var s0 := Snapshot(nodes);
    var updates: map<int, real> := map[];
    var n := Processed(nodes, reports);
    for i := 0 to n
      invariant Applied(nodes, reports[..i], s0, Snapshot(nodes))
      invariant UpdatesOK(nodes, reports[..i], Snapshot(nodes), updates)
    {
      ghost var s := Snapshot(nodes);
      var f := FirstWithId(nodes, reports[i].suspectNode);
      var v := nodes[f.value];
      Bump(v);
      AppliedStep(nodes, reports, i, s0, s, Snapshot(nodes));
      UpdatesStep(nodes, reports, i, s, Snapshot(nodes), updates);
      updates := updates[reports[i].suspectNode := v.reputation];
    }
    if n < |reports| {
      return Failure(NotFound);
    }
    assert reports[..n] == reports;
    return Success(updates);
  }

  /** The counters a node carries: none before its first report, and gamma = k + 1 with
      k >= 1 afterwards (they start at 2 and 1 and both grow by one per report). */
  predicate CountersOK(c: Counters)
  {
    (c.gamma.None? && c.k.None?) || (c.k.Some? && c.k.value >= 1 && c.gamma == Some(c.k.value + 1))
  }

  /** Reports keep the counters in step, and on a node counted k times the reputation is
      (k+1) ** (-k): 1/2 after the first report, always positive and at most 1/2, and
      strictly lower after every further report. */
  lemma ReportsLowerReputation(c: Counters, h: nat)
    requires CountersOK(c) && h >= 1
    ensures CountersOK(After(c, h))
    ensures var k := OrElse(c.k, 0) + h; After(c, h).k == Some(k) && After(c, h).reputation == Reputation(k + 1, k)
    ensures c.k.None? && h == 1 ==> After(c, h).reputation == 0.5
    ensures 0.0 < After(c, h).reputation <= 0.5
    ensures After(c, h + 1).reputation < After(c, h).reputation
  {
    ReputationSteps(OrElse(c.k, 0) + h);
  }

  // ---------------------------------------------------------------------------
  // update_reputation: the broadcast

  /** Every neighbour of a listed node. */
  ghost function NeighborSet(nodes: seq<SensorNode>): set<SensorNode>
    reads nodes
  {
    set n, m | n in nodes && m in n.neighbors :: m
  }

  lemma NeighborSetAppend(nodes: seq<SensorNode>, n: SensorNode)
    ensures NeighborSet(nodes + [n]) == NeighborSet(nodes) + set m | m in n.neighbors
  {
    var l, r := NeighborSet(nodes + [n]), NeighborSet(nodes) + set m | m in n.neighbors;
    forall m | m in l ensures m in r {
      var n' :| n' in nodes + [n] && m in n'.neighbors;
    }
  }

  /** One node's neighbours take the broadcast values of their ids. */
  method BroadcastFrom(node: SensorNode, updates: map<int, real>)
    modifies node.neighbors`reputation
    ensures forall m :: m in node.neighbors ==>
              m.reputation == if m.nodeId in updates then updates[m.nodeId] else old(m.reputation)
  {
    var nbrs := node.neighbors;
    for j := 0 to |nbrs|
      invariant forall m :: m in nbrs ==>
                  m.reputation == if m in nbrs[..j] && m.nodeId in updates then updates[m.nodeId] else old(m.reputation)
    {
      var m := nbrs[j];
      if m.nodeId in updates {
        m.reputation := updates[m.nodeId];
      }
      assert nbrs[..j + 1] == nbrs[..j] + [m];
    }
    assert nbrs[..|nbrs|] == nbrs;
  }

  /** Every neighbour of every node whose id has an entry takes that entry; nothing else changes. */
  method Broadcast(nodes: seq<SensorNode>, updates: map<int, real>)
    modifies NeighborSet(nodes)`reputation
    ensures forall m :: m in NeighborSet(nodes) ==>
              m.reputation == if m.nodeId in updates then updates[m.nodeId] else old(m.reputation)
    ensures var s0, s := old(Snapshot(nodes)), Snapshot(nodes);
            forall j :: 0 <= j < |nodes| ==>
              s[j].gamma == s0[j].gamma && s[j].k == s0[j].k && (nodes[j] !in NeighborSet(nodes) ==> s[j] == s0[j])
  {
    for i := 0 to |nodes|
      invariant forall n :: n in nodes ==> n.neighbors == old(n.neighbors)
      invariant forall m :: m in NeighborSet(nodes) ==>
                  m.reputation == if m in NeighborSet(nodes[..i]) && m.nodeId in updates then updates[m.nodeId]
                                  else old(m.reputation)
    {
      assert forall m :: m in nodes[i].neighbors ==> m in old(NeighborSet(nodes));
      BroadcastFrom(nodes[i], updates);
      assert nodes[..i + 1] == nodes[..i] + [nodes[i]];
      NeighborSetAppend(nodes[..i], nodes[i]);
    }
    assert nodes[..|nodes|] == nodes;
  }

  lemma {:induction false} HitCountPositive(nodes: seq<SensorNode>, rs: seq<Report>, o: SensorNode)
    requires HitCount(nodes, rs, o) > 0
    ensures exists i :: 0 <= i < |rs| && Hits(nodes, rs[i], o)
  {
    var n := |rs| - 1;
    if !Hits(nodes, rs[n], o) {
      HitCountPositive(nodes, rs[..n], o);
      var i :| 0 <= i < n && Hits(nodes, rs[..n][i], o);
      assert rs[..n][i] == rs[i];
    }
  }

  /** The map holds an entry for exactly the reported ids, and each entry is the value the
      broadcast is meant to carry. */
  lemma UpdatesAreBroadcastValues(nodes: seq<SensorNode>, rs: seq<Report>, s0: seq<Counters>,
                                  s: seq<Counters>, updates: map<int, real>)
    requires Applied(nodes, rs, s0, s) && UpdatesOK(nodes, rs, s, updates)
    ensures forall v :: v in updates <==> Reported(rs, v)
    ensures forall v :: v in updates ==>
              FirstWithId(nodes, v).Some? && updates[v] == BroadcastValue(nodes, rs, s0, v)
  {
  }

  /** A node whose id has no map entry was not reported. */
  lemma UnreportedUnchanged(nodes: seq<SensorNode>, rs: seq<Report>, s0: seq<Counters>, s: seq<Counters>,
                            updates: map<int, real>)
    requires Applied(nodes, rs, s0, s) && UpdatesOK(nodes, rs, s, updates)
    ensures forall j :: 0 <= j < |nodes| && nodes[j].nodeId !in updates ==> s[j] == s0[j]
  {
    forall j | 0 <= j < |nodes| && nodes[j].nodeId !in updates
      ensures s[j] == s0[j]
    {
      if HitCount(nodes, rs, nodes[j]) > 0 {
        HitCountPositive(nodes, rs, nodes[j]);
      }
    }
  }

  /** The reputation the sink broadcasts for id v: that of the first node with id v after
      the reports. */
  ghost function BroadcastValue(nodes: seq<SensorNode>, rs: seq<Report>, s0: seq<Counters>, v: int): real
    requires |s0| == |nodes| && FirstWithId(nodes, v).Some?
  {
    var f := FirstWithId(nodes, v).value;
    After(s0[f], HitCount(nodes, rs, nodes[f])).reputation
  }

  ghost predicate Reported(rs: seq<Report>, v: int)
  {
    exists i :: 0 <= i < |rs| && rs[i].suspectNode == v
  }

  /** The counters of every node after the reports, against the start state s0; the
      reputation also, except on the nodes in `except`. */
  ghost predicate CountsAfter(nodes: seq<SensorNode>, rs: seq<Report>, s0: seq<Counters>, s: seq<Counters>,
                              except: set<SensorNode>)
  {
    |s0| == |nodes| && |s| == |nodes| &&
    forall j :: 0 <= j < |nodes| ==>
      var a := After(s0[j], HitCount(nodes, rs, nodes[j]));
      s[j].gamma == a.gamma && s[j].k == a.k && (nodes[j] !in except ==> s[j].reputation == a.reputation)
  }

  lemma CountsAfterBroadcast(nodes: seq<SensorNode>, rs: seq<Report>, s0: seq<Counters>, s1: seq<Counters>,
                             s2: seq<Counters>, except: set<SensorNode>)
    requires Applied(nodes, rs, s0, s1) && |s2| == |nodes|
    requires forall j :: 0 <= j < |nodes| ==>
               s2[j].gamma == s1[j].gamma && s2[j].k == s1[j].k && (nodes[j] !in except ==> s2[j] == s1[j])
    ensures CountsAfter(nodes, rs, s0, s2, except)
  {
  }

  /** update_reputation.  A report naming no node stops it before the broadcast, with the
      earlier reports applied; otherwise every report is counted and every neighbour of a
      node takes the broadcast reputation of its id.  The sink node is not consulted. */
  method UpdateReputation(reports: seq<Report>, nodes: seq<SensorNode>) returns (r: Result<()>)
    modifies NodeSet(nodes)`gamma, NodeSet(nodes)`k, NodeSet(nodes)`reputation, NeighborSet(nodes)`reputation
    ensures r.Failure? <==> Processed(nodes, reports) < |reports|
    ensures r.Failure? ==> r.error == NotFound
    ensures r.Failure? ==> CountsAfter(nodes, reports[..Processed(nodes, reports)], old(Snapshot(nodes)), Snapshot(nodes), {})
    ensures r.Failure? ==>
              forall m :: m in NeighborSet(nodes) && m !in NodeSet(nodes) ==> m.reputation == old(m.reputation)
    ensures r.Success? ==> CountsAfter(nodes, reports, old(Snapshot(nodes)), Snapshot(nodes), NeighborSet(nodes))
    ensures r.Success? ==>
              forall m :: m in NeighborSet(nodes) ==>
                m.reputation == if Reported(reports, m.nodeId) && FirstWithId(nodes, m.nodeId).Some?
                                then BroadcastValue(nodes, reports, old(Snapshot(nodes)), m.nodeId)
                                else old(m.reputation)
  {
    ghost var s0 := Snapshot(nodes);
    var applied := ApplyReports(reports, nodes);
    ghost var s1 := Snapshot(nodes);
    assert forall m :: m in NeighborSet(nodes) && m !in NodeSet(nodes) ==> m.reputation == old(m.reputation);
    if applied.Failure? {
      CountsAfterBroadcast(nodes, reports[..Processed(nodes, reports)], s0, s1, s1, {});
      return Failure(applied.error);
    }
    var u := applied.value;
    UnreportedUnchanged(nodes, reports, s0, s1, u);
    UpdatesAreBroadcastValues(nodes, reports, s0, s1, u);
    assert forall m :: m in NeighborSet(nodes) && !Reported(reports, m.nodeId) ==> m.reputation == old(m.reputation) by {
      forall m | m in NodeSet(nodes) && !Reported(reports, m.nodeId) ensures m.reputation == old(m.reputation) {
        var j :| 0 <= j < |nodes| && nodes[j] == m;
        assert s1[j] == s0[j];
      }
    }
    BroadcastUpdates(reports, nodes, u, s0);
    return Success(());
  }

  /** The broadcast step of update_reputation, once every report has been counted: the
      neighbours of a reported node take its broadcast value. */
  method BroadcastUpdates(reports: seq<Report>, nodes: seq<SensorNode>, updates: map<int, real>,
                          ghost s0: seq<Counters>)
    requires Applied(nodes, reports, s0, Snapshot(nodes)) && UpdatesOK(nodes, reports, Snapshot(nodes), updates)
    modifies NeighborSet(nodes)`reputation
    ensures CountsAfter(nodes, reports, s0, Snapshot(nodes), NeighborSet(nodes))
    ensures forall m :: m in NeighborSet(nodes) ==>
              m.reputation == if Reported(reports, m.nodeId) && FirstWithId(nodes, m.nodeId).Some?
                              then BroadcastValue(nodes, reports, s0, m.nodeId)
                              else old(m.reputation)
  {
    ghost var s1 := Snapshot(nodes);
    UpdatesAreBroadcastValues(nodes, reports, s0, s1, updates);
    Broadcast(nodes, updates);
    CountsAfterBroadcast(nodes, reports, s0, s1, Snapshot(nodes), NeighborSet(nodes));
  }
}
