/** Message_Transmission/msgtrans.py: the radio energy model and hop-by-hop relay
    selection.  At each hop the current node scores its eligible neighbours by the
    interest function IF and hands the message to the first one with the highest score,
    paying the transmission energy, until the sink is reached or no neighbour is left. */
module MsgTrans {
  import opened Results
  import opened Messages
  import opened SensorNodes

  /** The default parameters of energy_transmit. */
  const D0: real := 50.0
  const Eelec: real := 0.1
  const Fs: real := 0.01
  const Mp: real := 0.001

  /** energy_transmit(duv, L): free-space model up to D0 (inclusive), multipath beyond. */
  function EnergyTransmit(duv: real, L: real): real
  {
    if duv <= D0 then L * Eelec + L * Fs * (duv * duv)
    else L * Eelec + L * Mp * (duv * duv * duv * duv)
  }

  /** The same model on the squared distance, which is what the relay selection has. */
  function EnergyTransmitSq(sq: real, L: real): real
  {
    if sq <= D0 * D0 then L * Eelec + L * Fs * sq
    else L * Eelec + L * Mp * (sq * sq)
  }

  /** For a distance d >= 0 the two forms agree. */
  lemma EnergyFromSquare(duv: real, L: real)
    requires duv >= 0.0
    ensures EnergyTransmit(duv, L) == EnergyTransmitSq(duv * duv, L)
  {
    if duv <= D0 {
      SquareMono(duv, D0);
    } else {
      SquareStrict(D0, duv);
    }
    var s := duv * duv;
    assert duv * duv * duv * duv == s * s;
  }

  /** Sending a positive number of bits costs energy. */
  lemma EnergyPositive(sq: real, L: real)
    requires sq >= 0.0 && L > 0.0
    ensures EnergyTransmitSq(sq, L) > 0.0
  {
    var a := L * Fs;
    var b := L * Mp;
    MulNonneg(a, sq);
    MulNonneg(sq, sq);
    MulNonneg(b, sq * sq);
  }

  lemma MulNonneg(a: real, b: real)
    requires a >= 0.0 && b >= 0.0
    ensures a * b >= 0.0
  {
  }

  lemma MulMonoReal(c: real, x: real, y: real)
    requires c >= 0.0 && x <= y
    ensures c * x <= c * y
  {
    MulNonneg(c, y - x);
    assert c * (y - x) == c * y - c * x;
  }

  /** A farther receiver never costs less, across the D0 boundary too. */
  lemma EnergyMonotone(s1: real, s2: real, L: real)
    requires 0.0 <= s1 <= s2 && L >= 0.0
    ensures EnergyTransmitSq(s1, L) <= EnergyTransmitSq(s2, L)
  {
    var a := L * Fs;
    var b := L * Mp;
    if s2 <= D0 * D0 {
      MulMonoReal(a, s1, s2);
    } else if s1 > D0 * D0 {
      SquareMono(s1, s2);
      MulMonoReal(b, s1 * s1, s2 * s2);
    } else {
      MulMonoReal(a, s1, D0 * D0);
      SquareMono(D0 * D0, s2);
      MulMonoReal(b, D0 * D0 * (D0 * D0), s2 * s2);
      assert a * (D0 * D0) == L * 25.0;
      assert b * (D0 * D0 * (D0 * D0)) == L * 6250.0;
      MulMonoReal(L, 25.0, 6250.0);
    }
  }

  /** A neighbour that may relay: not visited and not flagged. */
  predicate Eligible(n: SensorNode, visited: seq<int>)
    reads n
  {
    n.nodeId !in visited && !n.detectedAsMalicious
  }

  /** The candidates of a hop, in the order of the neighbour list. */
  function Candidates(nbrs: seq<SensorNode>, visited: seq<int>): (c: seq<SensorNode>)
    reads nbrs
    ensures |c| <= |nbrs|
    ensures forall i :: 0 <= i < |c| ==> c[i] in nbrs && Eligible(c[i], visited)
    ensures forall i :: 0 <= i < |nbrs| && Eligible(nbrs[i], visited) ==> nbrs[i] in c
  {
    if |nbrs| == 0 then []
    else
      var rest := Candidates(nbrs[1..], visited);
      if Eligible(nbrs[0], visited) then [nbrs[0]] + rest else rest
  }

  /** ET * dvj_s^2, the divisor of IF. */
  function Divisor(source: SensorNode, n: SensorNode, sink: SensorNode, L: real): real
  {
    EnergyTransmitSq(source.SqDistanceTo(n), L) * n.SqDistanceTo(sink)
  }

  /** IF = p_vj * pa * energy / (ET * dvj_s^2), where pa is lambda for a node on the
      planned path and 1 otherwise. */
  function Interest(source: SensorNode, n: SensorNode, sink: SensorNode, path: seq<int>, lambda: real, L: real): real
    requires Divisor(source, n, sink, L) != 0.0
    reads n
  {
    var pa := if n.nodeId in path then lambda else 1.0;
    (n.reputation * pa * n.energy) / Divisor(source, n, sink, L)
  }

  /** c[i] is the relay: its IF is above -1, at least that of every candidate, and
      strictly above that of every earlier one. */
  ghost predicate FirstBest(c: seq<SensorNode>, i: nat, source: SensorNode, sink: SensorNode, path: seq<int>,
                            lambda: real, L: real)
    reads c
  {
    i < |c| && (forall j :: 0 <= j < |c| ==> Divisor(source, c[j], sink, L) != 0.0) &&
    Interest(source, c[i], sink, path, lambda, L) > -1.0 &&
    (forall j :: 0 <= j < i ==> Interest(source, c[j], sink, path, lambda, L) < Interest(source, c[i], sink, path, lambda, L)) &&
    (forall j :: 0 <= j < |c| ==> Interest(source, c[j], sink, path, lambda, L) <= Interest(source, c[i], sink, path, lambda, L))
  }

  /** No candidate scores above the initial max_IF of -1. */
  ghost predicate NoneAbove(c: seq<SensorNode>, source: SensorNode, sink: SensorNode, path: seq<int>, lambda: real, L: real)
    reads c
  {
    (forall j :: 0 <= j < |c| ==> Divisor(source, c[j], sink, L) != 0.0) &&
    forall j :: 0 <= j < |c| ==> Interest(source, c[j], sink, path, lambda, L) <= -1.0
  }

  /** The sink itself is at distance 0 from the sink, so it can never be scored. */
  lemma SinkDivisorZero(source: SensorNode, sink: SensorNode, L: real)
    ensures Divisor(source, sink, sink, L) == 0.0
  {
  }

  /** IF of one candidate, computed as the source does; a zero divisor fails. */
  method Score(source: SensorNode, neighbor: SensorNode, sink: SensorNode, path: seq<int>, lambda: real, L: real)
    returns (r: Result<real>)
    ensures r.Failure? <==> Divisor(source, neighbor, sink, L) == 0.0
    ensures r.Success? ==> r.value == Interest(source, neighbor, sink, path, lambda, L)
  {
    var duv := source.SqDistanceTo(neighbor);
    var dvjs := neighbor.SqDistanceTo(sink);
    var et := EnergyTransmitSq(duv, L);
    var pvj := neighbor.reputation;
    var pa := if neighbor.nodeId in path then lambda else 1.0;
    if et * dvjs == 0.0 {
      return Failure(ZeroDivision);
    }
    return Success((pvj * pa * neighbor.energy) / (et * dvjs));
  }

  /** The scoring loop: candidates are scored in order and a score replaces max_IF (from
      -1) only when strictly greater, so the first best candidate wins.  A zero divisor is
      a ZeroDivisionError. */
  method SelectRelay(source: SensorNode, cands: seq<SensorNode>, sink: SensorNode, path: seq<int>,
                     lambda: real, L: real) returns (r: Result<Option<nat>>)
    ensures r.Failure? <==> exists j :: 0 <= j < |cands| && Divisor(source, cands[j], sink, L) == 0.0
    ensures r.Failure? ==> r.error == ZeroDivision
    ensures r == Success(None) ==> NoneAbove(cands, source, sink, path, lambda, L)
    ensures r.Success? && r.value.Some? ==> FirstBest(cands, r.value.value, source, sink, path, lambda, L)
  {
    var best: Option<nat> := None;
    var maxIF := -1.0;
    for x := 0 to |cands|
      invariant forall j :: 0 <= j < x ==> Divisor(source, cands[j], sink, L) != 0.0
      invariant best == None ==>
                  maxIF == -1.0 &&
                  forall j :: 0 <= j < x ==> Interest(source, cands[j], sink, path, lambda, L) <= -1.0
      invariant best.Some? ==>
                  best.value < x && maxIF == Interest(source, cands[best.value], sink, path, lambda, L) &&
                  maxIF > -1.0 &&
                  (forall j :: 0 <= j < best.value ==> Interest(source, cands[j], sink, path, lambda, L) < maxIF) &&
                  (forall j :: 0 <= j < x ==> Interest(source, cands[j], sink, path, lambda, L) <= maxIF)
    {
      var scored := Score(source, cands[x], sink, path, lambda, L);
      if scored.Failure? {
        return Failure(ZeroDivision);
      }
      var score := scored.value;
      if score > maxIF {
        maxIF := score;
        best := Some(x);
      }
    }
    return Success(best);
  }

  /** One hop of transmit_message.  With no candidate, a failed scoring or no score above
      -1 nothing changes.  With a relay, the source pays the transmission energy with no
      floor at zero, the relay's id is appended to path_star and the relay stores the
      message.  Because of the zero divisor, the sink is never the relay. */
  method ForwardHop(source: SensorNode, message: Message, sink: SensorNode, lambda: real, L: real)
    returns (r: Result<SensorNode?>)
    modifies source`energy, message`pathStar, source.neighbors`messagesForwarded
    ensures r.Failure? <==>
              exists n :: n in old(Candidates(source.neighbors, message.pathStar)) && Divisor(source, n, sink, L) == 0.0
    ensures r.Failure? ==> r.error == ZeroDivision
    ensures r.Failure? || r.value == null ==>
              source.energy == old(source.energy) && message.pathStar == old(message.pathStar) &&
              forall n :: n in source.neighbors ==> n.messagesForwarded == old(n.messagesForwarded)
    ensures r.Success? && r.value == null ==>
              old(NoneAbove(Candidates(source.neighbors, message.pathStar), source, sink, message.path, lambda, L))
    ensures r.Success? && r.value != null ==>
              var best := r.value;
              best != sink && best in source.neighbors &&
              old(Eligible(best, message.pathStar)) &&
              (exists i: nat :: old(FirstBest(Candidates(source.neighbors, message.pathStar), i, source, sink, message.path, lambda, L)) &&
                                best == old(Candidates(source.neighbors, message.pathStar))[i]) &&
              source.energy == old(source.energy) - EnergyTransmitSq(source.SqDistanceTo(best), L) &&
              message.pathStar == old(message.pathStar) + [best.nodeId] &&
              best.messagesForwarded == old(best.messagesForwarded)[message.id := message] &&
              forall n :: n in source.neighbors && n != best ==> n.messagesForwarded == old(n.messagesForwarded)
  {
    var visited := message.pathStar;
    var cands := Candidates(source.neighbors, visited);
    if cands == [] {
      return Success(null);
    }
    var chosen := SelectRelay(source, cands, sink, message.path, lambda, L);
    if chosen.Failure? {
      return Failure(chosen.error);
    }
    if chosen.value.None? {
      return Success(null);
    }
    var best := cands[chosen.value.value];
    SinkDivisorZero(source, sink, L);
    var duv := source.SqDistanceTo(best);
    var energyUsed := EnergyTransmitSq(duv, L);
    source.energy := source.energy - energyUsed;
    message.pathStar := message.pathStar + [best.nodeId];
    best.ReceiveMessage(message, source);
    return Success(best);
  }

  /** Every neighbour of a node of net is in net. */
  ghost predicate Closed(net: set<SensorNode>)
    reads net
  {
    forall n :: n in net ==> forall m :: m in n.neighbors ==> m in net
  }

  function Ids(net: set<SensorNode>): set<int>
  {
    set n | n in net :: n.nodeId
  }

  function Visited(pathStar: seq<int>): set<int>
  {
    set x | x in pathStar
  }

  lemma VisitMore(ids: set<int>, pathStar: seq<int>, x: int)
    requires x in ids && x !in pathStar
    ensures |ids - Visited(pathStar + [x])| < |ids - Visited(pathStar)|
  {
    assert Visited(pathStar + [x]) == Visited(pathStar) + {x};
    assert ids - Visited(pathStar + [x]) == (ids - Visited(pathStar)) - {x};
  }

  /** The relays carry the ids, one for one. */
  predicate RelayIds(relays: seq<SensorNode>, ids: seq<int>)
  {
    |relays| == |ids| && forall i :: 0 <= i < |relays| ==> relays[i].nodeId == ids[i]
  }

  /** One more relay, whose id was appended just after the ids of before. */
  lemma IdsCons(relay: SensorNode, rest: seq<SensorNode>, before: seq<int>, tail: seq<int>, ids: seq<int>)
    requires before + [relay.nodeId] <= ids && tail == ids[|before| + 1..] && RelayIds(rest, tail)
    ensures RelayIds([relay] + rest, ids[|before|..])
  {
    assert ids[|before|..] == [relay.nodeId] + tail;
  }

  /** Each relay is a neighbour of the one before it, the first a neighbour of the source. */
  ghost predicate RelayChain(source: SensorNode, relays: seq<SensorNode>)
    reads source, set n | n in relays
  {
    (|relays| > 0 ==> relays[0] in source.neighbors) &&
    forall i :: 0 < i < |relays| ==> relays[i] in relays[i - 1].neighbors
  }

  /** A chain from a neighbour of the source extends to a chain from the source. */
  lemma ChainCons(source: SensorNode, best: SensorNode, rest: seq<SensorNode>)
    requires best in source.neighbors && RelayChain(best, rest)
    ensures RelayChain(source, [best] + rest)
  {
    var relays := [best] + rest;
    forall i | 0 < i < |relays| ensures relays[i] in relays[i - 1].neighbors {
      assert relays[i] == rest[i - 1];
      if i > 1 {
        assert relays[i - 1] == rest[i - 2];
      }
    }
  }

  /** transmit_message: hop after hop until the sink is the relay, no relay is found or
      a score divides by zero.  Every hop appends one id of the network that path_star did
      not hold yet, so path_star keeps its prefix, stays free of repeats when it was, and
      grows by at most the number of ids not yet visited.  The relays behind the appended
      ids are returned as a ghost chain: none is the sink, and each is a neighbour of the
      one before it, the first a neighbour of the source. */
  method TransmitMessage(source: SensorNode, message: Message, sink: SensorNode, lambda: real, L: real,
                         ghost net: set<SensorNode>)
    returns (r: Result<()>, ghost relays: seq<SensorNode>)
    requires source in net && Closed(net)
    modifies net`energy, net`messagesForwarded, message`pathStar
    ensures old(message.pathStar) <= message.pathStar
    ensures RelayIds(relays, message.pathStar[|old(message.pathStar)|..])
    ensures forall n :: n in relays ==> n in net && n != sink
    ensures RelayChain(source, relays)
    ensures forall i :: |old(message.pathStar)| <= i < |message.pathStar| ==>
              message.pathStar[i] in Ids(net) && message.pathStar[i] !in message.pathStar[..i]
    ensures |message.pathStar| - |old(message.pathStar)| <= |Ids(net) - Visited(old(message.pathStar))|
    ensures r.Failure? ==> r.error == ZeroDivision
    decreases |Ids(net) - Visited(message.pathStar)|
  {
    ghost var before := message.pathStar;
    relays := [];
    var hop := ForwardHop(source, message, sink, lambda, L);
    if hop.Failure? {
      return Failure(hop.error), relays;
    }
    var best := hop.value;
    if best == null {
      return Success(()), relays;
    }
    assert best in net;
    VisitMore(Ids(net), before, best.nodeId);
    if best != sink {
      ghost var relay: SensorNode := best;
      ghost var mid := message.pathStar;
      ghost var rest;
      r, rest := TransmitMessage(best, message, sink, lambda, L, net);
      relays := [relay] + rest;
      IdsCons(relay, rest, before, message.pathStar[|mid|..], message.pathStar);
      ChainCons(source, relay, rest);
      forall i | |before| <= i < |message.pathStar|
        ensures message.pathStar[i] in Ids(net) && message.pathStar[i] !in message.pathStar[..i]
      {
        if i == |before| {
          assert message.pathStar[..i] == before;
        }
      }
    } else {
      // The delivery branch: ForwardHop never returns the sink, whose IF divides by zero.
      assert false;
    }
  }
}
