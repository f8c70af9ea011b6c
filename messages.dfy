/** Message_Transmission/msgtrans.py, class Message: a share travelling towards the sink
    with the route it was meant to take (path) and the relays it has visited (path_star). */
module Messages {

  class Message {
    const id: int
    const share: string
    /** The SHA-256 digest of the id and share, supplied by the caller. */
    const digest: string
    const path: seq<int>
    var pathStar: seq<int>
    const timestamp: string

    constructor (msgId: int, si: string, hash: string, route: seq<int>, visited: seq<int>, time: string)
      ensures id == msgId && share == si && digest == hash && path == route && pathStar == visited
      ensures timestamp == time
    {
      id := msgId;
      share := si;
      digest := hash;
      path := route;
      pathStar := visited;
      timestamp := time;
    }
  }
}
