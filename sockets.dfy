/** The socket calls the programs make, as pure functions over what the other
    end of the connection does.  Nothing here talks to a network: a peer is a
    script of events, and recv and send are total functions of that script. */
module Sockets {
  import opened Text

  /** Bytes that arrived together; never empty. */
  type Chunk = s: string | |s| > 0 witness "x"

  /** One event of the other end as the receiving side sees it: bytes that
      have arrived, an orderly shutdown, or a connection error. */
  datatype Segment = Data(bytes: Chunk) | Shutdown | Reset

  /** What one recv call returns: a positive count of bytes, 0 once the
      other end has shut down (or has nothing more to send), or SOCKET_ERROR. */
  datatype RecvResult = Received(bytes: string) | Closed | Failed

  /** Every byte the other end delivers before its stream stops. */
  function Pending(peer: seq<Segment>): string
    decreases |peer|
  {
    if peer == [] || !peer[0].Data? then [] else peer[0].bytes + Pending(peer[1..])
  }

  /** recv(socket, buffer, n, 0): at most `n` bytes from the front of what has
      arrived; bytes beyond `n` stay queued for the next call. */
  function Recv(peer: seq<Segment>, n: nat): (res: (RecvResult, seq<Segment>))
    requires n > 0
    ensures res.0.Received? <==> Pending(peer) != []
    ensures res.0.Received? ==> 0 < |res.0.bytes| <= n
    ensures res.0.Received? ==> res.0.bytes + Pending(res.1) == Pending(peer)
    ensures !res.0.Received? ==> res.1 == peer
    ensures res.0.Failed? <==> peer != [] && peer[0].Reset?
  {
    if peer == [] then (Closed, peer)
    else match peer[0]
      case Reset => (Failed, peer)
      case Shutdown => (Closed, peer)
      case Data(b) =>
        if |b| <= n then (Received(b), peer[1..])
        else
          var later: Chunk := b[n..];
          assert Pending([Data(later)] + peer[1..]) == later + Pending(peer[1..]);
          (Received(b[..n]), [Data(later)] + peer[1..])
  }

  type Pos = n: nat | n > 0 witness 1

  /** How the network takes one send call: it accepts up to `limit` bytes, or
      the call fails with SOCKET_ERROR. */
  datatype SendOutcome = Accepts(limit: Pos) | SendError

  /** What one send call returns: the count accepted, or SOCKET_ERROR. */
  datatype SendResult = Sent(count: nat) | SocketError

  /** send(socket, buffer, len, 0) on a blocking socket: accepts between one
      byte and `len` bytes of a non-empty buffer, or fails.  Once the script
      is used up every call is accepted whole. */
  function Send(link: seq<SendOutcome>, len: nat): (res: (SendResult, seq<SendOutcome>))
    ensures res.0.Sent? ==> res.0.count <= len && (len > 0 ==> res.0.count > 0)
    ensures res.0.SocketError? <==> link != [] && link[0].SendError?
    ensures res.1 == if link == [] then [] else link[1..]
  {
    if link == [] then (Sent(len), [])
    else match link[0]
      case Accepts(k) => (Sent(Min(k, len)), link[1..])
      case SendError => (SocketError, link[1..])
  }
}
