/** Message_Transmission/simulate.py, class SensorNode: a node with a position, a
    transmission radius, an energy budget, a reputation and the messages it has
    forwarded.  A position is an exact pair of reals; distances are compared through their
    squares, which is all the transmission code needs. */
module SensorNodes {
  import opened Results
  import opened Messages

  type Location = (real, real)

  /** The squared Euclidean distance between two positions. */
  function SqDist(a: Location, b: Location): (d: real)
    ensures d >= 0.0
  {
    (b.0 - a.0) * (b.0 - a.0) + (b.1 - a.1) * (b.1 - a.1)
  }

  lemma SqDistSymmetric(a: Location, b: Location)
    ensures SqDist(a, b) == SqDist(b, a)
    ensures SqDist(a, a) == 0.0
  {
  }

  /** A node at distance d (with d * d the squared distance) reaches one within radius
      r: d <= r. */
  predicate Reaches(a: Location, b: Location, r: real)
  {
    r >= 0.0 && SqDist(a, b) <= r * r
  }

  /** Reaches compares the distance itself with the radius. */
  lemma ReachesIffWithin(a: Location, b: Location, r: real, d: real)
    requires d >= 0.0 && d * d == SqDist(a, b)
    ensures Reaches(a, b, r) <==> d <= r
  {
    if r >= 0.0 && d > r {
      assert d * d > r * r by { SquareStrict(r, d); }
    }
    if d <= r {
      assert d * d <= r * r by { SquareMono(d, r); }
    }
  }

  lemma SquareMono(x: real, y: real)
    requires 0.0 <= x <= y
    ensures x * x <= y * y
  {
    if x < y {
      SquareStrict(x, y);
    }
  }

  lemma SquareStrict(x: real, y: real)
    requires 0.0 <= x < y
    ensures x * x < y * y
  {
    var d := y - x;
    var s := y + x;
    MulPos(d, s);
    assert d * s == y * y - x * x;
  }

  lemma MulPos(a: real, b: real)
    requires a > 0.0 && b > 0.0
    ensures a * b > 0.0
  {
  }

  /** Reaching depends on the radius of the node that sends: two nodes at distance 5 with
      radii 6 and 4 give a one-sided link. */
  lemma OneSidedLink()
    ensures Reaches((0.0, 0.0), (3.0, 4.0), 6.0) && !Reaches((3.0, 4.0), (0.0, 0.0), 4.0)
  {
  }

  class SensorNode {
    const nodeId: int
    var energy: real
    const location: Location
    const transmissionRadius: real
    const isSink: bool
    var neighbors: seq<SensorNode>
    var reputation: real
    var suspicionScore: real
    var messagesForwarded: map<int, Message>
    var detectedAsMalicious: bool
    /** The anomaly counters the sink attaches on the first report (absent until then);
        they only ever start at 1 and grow, so they are non-negative. */
    var gamma: Option<nat>
    var k: Option<nat>

    constructor (id: int, e: real, loc: Location, radius: real, sink: bool)
      ensures nodeId == id && energy == e && location == loc && transmissionRadius == radius && isSink == sink
      ensures neighbors == [] && reputation == 1.0 && suspicionScore == 1.0 && messagesForwarded == map[]
      ensures !detectedAsMalicious && gamma == None && k == None
    {
      nodeId := id;
      energy := e;
      location := loc;
      transmissionRadius := radius;
      isSink := sink;
      neighbors := [];
      reputation := 1.0;
      suspicionScore := 1.0;
      messagesForwarded := map[];
      detectedAsMalicious := false;
      gamma := None;
      k := None;
    }

    /** distance_to, squared. */
    function SqDistanceTo(other: SensorNode): (d: real)
      ensures d >= 0.0 && d == SqDist(other.location, location) && (other == this ==> d == 0.0)
    {
      SqDistSymmetric(location, other.location);
      SqDist(location, other.location)
    }

    /** can_communicate_with: the other node is within this node's own radius. */
    predicate CanCommunicateWith(other: SensorNode)
    {
      Reaches(location, other.location, transmissionRadius)
    }

    /** add_neighbor: appends the other node when it is within this node's radius. */
    method AddNeighbor(other: SensorNode)
      modifies this`neighbors
      ensures neighbors == if CanCommunicateWith(other) then old(neighbors) + [other] else old(neighbors)
    {
      if CanCommunicateWith(other) {
        neighbors := neighbors + [other];
      }
    }

    /** update_reputation: the suspicion score grows by delta and the reputation becomes
        its inverse; a score of zero makes the division fail after the score was stored. */
    method UpdateReputation(delta: real) returns (r: Result<()>)
      modifies this`suspicionScore, this`reputation
      ensures suspicionScore == old(suspicionScore) + delta
      ensures r.Failure? <==> suspicionScore == 0.0
      ensures r.Failure? ==> r.error == ZeroDivision && reputation == old(reputation)
      ensures r.Success? ==> reputation * suspicionScore == 1.0
    {
      suspicionScore := suspicionScore + delta;
      if suspicionScore == 0.0 {
        return Failure(ZeroDivision);
      }
      reputation := 1.0 / suspicionScore;
      return Success(());
    }

    /** mark_as_malicious: flagged with reputation 0, whatever the state was, so a second
        call changes nothing. */
    method MarkAsMalicious()
      modifies this`detectedAsMalicious, this`reputation
      ensures detectedAsMalicious && reputation == 0.0
    {
      detectedAsMalicious := true;
      reputation := 0.0;
    }

    /** receive_message: the message is stored under its id, replacing an earlier one. */
    method ReceiveMessage(message: Message, sender: SensorNode)
      modifies this`messagesForwarded
      ensures messagesForwarded == old(messagesForwarded)[message.id := message]
      ensures message.id in messagesForwarded && messagesForwarded[message.id] == message
      ensures forall id :: id in old(messagesForwarded) && id != message.id ==>
                id in messagesForwarded && messagesForwarded[id] == old(messagesForwarded)[id]
    {
      messagesForwarded := messagesForwarded[message.id := message];
    }
  }
}
