/** The sockets of the bridge as abstract byte streams.

    A connected socket has an inbound side, the bytes the peer has sent and
    the bridge has not read yet, and an outbound side, the list of sendall
    writes the peer has been handed. How TCP splits the inbound bytes into
    recv results is not known to the bridge: it is given as a script of caps,
    one per recv call, and a call recv(n) hands over min(n, cap, pending)
    bytes. Every non-empty result of at most n bytes is the result of some
    cap, so quantifying over the caps covers every way the stream can split.
    An empty result means the peer has closed: it happens exactly when
    nothing is pending. */
module Transport {
  import opened Wire

  /** The most bytes one recv call may deliver; the network always delivers
      at least one byte when any is pending. */
  type Cap = n: nat | n > 0 witness 1

  datatype Inbound = Inbound(pending: seq<byte>, caps: seq<Cap>)

  /** `accepts` is how many further sendall calls the peer takes before the
      connection breaks (reset, broken pipe). */
  datatype Outbound = Outbound(writes: seq<seq<byte>>, accepts: nat)

  datatype Peer = Peer(inbound: Inbound, outbound: Outbound)

  /** A socket attribute of the bridge: connected to a peer; closed (also
      standing for a socket created but not yet connected); or unset, when
      the attribute was never assigned and every method call on it raises
      AttributeError. */
  datatype Socket = Connected(peer: Peer) | Closed | Unset

  /** The exceptions the framing and relay code can raise. */
  datatype Error =
    | ShortHeader        // RuntimeError("Failed to receive the header")
    | ClosedPrematurely  // RuntimeError("Connection closed prematurely")
    | SocketError        // OSError / socket.error from a socket call
    | HeaderOverflow     // struct.error: the length does not fit "!I"
    | CodecError         // an exception of the payload codec (pickle, dict lookup, imwrite)
    | ReplyFormat        // IndexError: the reply's pose is too short for the print at line 144
    | NoSocket           // AttributeError: the socket attribute was never assigned

  datatype Result<+T> = Ok(value: T) | Err(error: Error)

  /** One recv(n) call on an inbound stream. */
  function Recv(s: Inbound, n: nat): (r: (seq<byte>, Inbound))
    ensures |r.0| <= n && |r.0| <= |s.pending|
    ensures r.0 == s.pending[..|r.0|] && r.1.pending == s.pending[|r.0|..]
    ensures r.0 == [] <==> n == 0 || s.pending == []
    ensures |r.0| == n <==> n <= |s.pending| && (s.caps == [] || n <= s.caps[0])
  {
    var m := Min(Min(n, |s.pending|), if s.caps == [] then n else s.caps[0]);
    (s.pending[..m], Inbound(s.pending[m..], if m == 0 || s.caps == [] then s.caps else s.caps[1..]))
  }

  /** sendall(b) on a socket attribute: AttributeError when it is unset,
      OSError when it is closed or the connection breaks; nothing is recorded
      then, as the bridge discards the socket after any send error. */
  function SockSendAll(sock: Socket, b: seq<byte>): (r: Result<Socket>)
    ensures r.Ok? <==> sock.Connected? && sock.peer.outbound.accepts > 0
    ensures r.Ok? ==> r.value == Connected(sock.peer.(outbound := Outbound(
                          sock.peer.outbound.writes + [b], sock.peer.outbound.accepts - 1)))
    ensures r.Err? ==> r.error == (if sock.Unset? then NoSocket else SocketError)
  {
    if sock.Unset? then Err(NoSocket)
    else if sock.Closed? || sock.peer.outbound.accepts == 0 then Err(SocketError)
    else
      var o := sock.peer.outbound;
      Ok(Connected(sock.peer.(outbound := Outbound(o.writes + [b], o.accepts - 1))))
  }
}
