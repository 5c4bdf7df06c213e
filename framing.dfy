/** Length-prefixed chunked framing: what Bridge.send_in_chunks writes and
    what Bridge.receive_in_chunks reads, as functions of the streams.
    A frame is the 4-byte big-endian length N followed by N payload bytes. */
module Framing {
  import opened Wire
  import opened Transport

  /** The default chunk_size of send_in_chunks. */
  const SendChunkSize: Cap := 4096

  /** The chunk_size of receive_in_chunks: no body read asks for more. */
  const RecvChunkSize: Cap := 4096

  // ---------------------------------------------------------------- sending

  /** The slices serialized_data[t:t + size] that the send loop hands to
      sendall from total_sent = t on: each pass sends one slice and advances
      total_sent by its length, until total_sent reaches len(serialized_data). */
  function ChunksFrom(data: seq<byte>, t: nat, size: Cap): (r: seq<seq<byte>>)
    ensures r == [] <==> t >= |data|
    decreases |data| - t
  {
    if t >= |data| then []
    else
      var e := Min(t + size, |data|);
      [data[t..e]] + ChunksFrom(data, e, size)
  }

  /** The slices of a whole payload, starting from total_sent = 0. */
  function Chunks(data: seq<byte>, size: Cap): (r: seq<seq<byte>>)
    ensures r == [] <==> data == []
  {
    ChunksFrom(data, 0, size)
  }

  /** Every chunk is non-empty and at most `size` long; all but the last are
      exactly `size` long. */
  lemma {:induction false} ChunkSizes(data: seq<byte>, t: nat, size: Cap)
    ensures forall i :: 0 <= i < |ChunksFrom(data, t, size)| ==> 0 < |ChunksFrom(data, t, size)[i]| <= size
    ensures forall i :: 0 <= i < |ChunksFrom(data, t, size)| - 1 ==> |ChunksFrom(data, t, size)[i]| == size
    decreases |data| - t
  {
    if t < |data| {
      var e := Min(t + size, |data|);
      assert ChunksFrom(data, t, size) == [data[t..e]] + ChunksFrom(data, e, size);
      ChunkSizes(data, e, size);
    }
  }

  /** The chunks, put back together, are the rest of the payload. */
  lemma {:induction false} ChunksConcat(data: seq<byte>, t: nat, size: Cap)
    requires t <= |data|
    ensures Flatten(ChunksFrom(data, t, size)) == data[t..]
    decreases |data| - t
  {
    if t < |data| {
      var e := Min(t + size, |data|);
      var c := ChunksFrom(data, t, size);
      assert c[0] == data[t..e] && c[1..] == ChunksFrom(data, e, size);
      ChunksConcat(data, e, size);
      assert data[t..] == data[t..e] + data[e..];
    }
  }

  /** Chunk i from total_sent = t is serialized_data[u:u + size] for
      u = t + i * size: every chunk but the last is a full one. */
  lemma {:induction false} ChunkSlices(data: seq<byte>, t: nat, size: Cap, i: nat)
    requires i < |ChunksFrom(data, t, size)|
    ensures t + i * size < |data|
    ensures ChunksFrom(data, t, size)[i] == data[t + i * size .. Min(t + i * size + size, |data|)]
    decreases i
  {
    var e := Min(t + size, |data|);
    assert ChunksFrom(data, t, size) == [data[t..e]] + ChunksFrom(data, e, size);
    if i > 0 {
      ChunkSlices(data, e, size, i - 1);
      assert e == t + size;
      assert e + (i - 1) * size == t + i * size;
    }
  }

  /** The sendall calls of one frame: the header, then the chunks. */
  function FrameWrites(p: seq<byte>, size: Cap): (w: seq<seq<byte>>)
    requires |p| < U32Bound
    ensures |w| >= 1 && w[0] == PackU32(|p|).value && |w[0]| == HeaderSize
    ensures forall i :: 1 <= i < |w| ==> 0 < |w[i]| <= size
    ensures |w| == 1 <==> p == []
    ensures Flatten(w) == PackU32(|p|).value + p
  {
    var h := PackU32(|p|).value;
    var c := Chunks(p, size);
    ChunksConcat(p, 0, size);
    ChunkSizes(p, 0, size);
    assert ([h] + c)[0] == h && ([h] + c)[1..] == c;
    [h] + c
  }

  /** Handing the writes w to sendall one after the other: all of them when
      the peer takes that many, otherwise the ones it takes and then OSError;
      AttributeError at once on an unset socket. Only the outbound side of
      the socket changes. */
  function SendWrites(sock: Socket, w: seq<seq<byte>>): (r: (Result<()>, Socket))
    ensures r.1.Connected? <==> sock.Connected?
    ensures sock.Connected? ==> r.1.peer.inbound == sock.peer.inbound
    ensures r.0.Err? ==> w != [] && r.0.error == (if sock.Unset? then NoSocket else SocketError)
  {
    if w == [] then (Ok(()), sock)
    else if sock.Unset? then (Err(NoSocket), sock)
    else if sock.Closed? then (Err(SocketError), sock)
    else
      var o := sock.peer.outbound;
      if |w| <= o.accepts then
        (Ok(()), Connected(sock.peer.(outbound := Outbound(o.writes + w, o.accepts - |w|))))
      else
        (Err(SocketError), Connected(sock.peer.(outbound := Outbound(o.writes + w[..o.accepts], 0))))
  }

  /** Sending a non-empty list of writes is sending the first, then the rest. */
  lemma SendWritesCons(sock: Socket, w: seq<seq<byte>>)
    requires w != []
    ensures SendWrites(sock, w) ==
              match SockSendAll(sock, w[0])
              case Err(e) => (Err(e), sock)
              case Ok(next) => SendWrites(next, w[1..])
  {
    if sock.Connected? {
      var o := sock.peer.outbound;
      if o.accepts == 0 {
        assert o.writes + w[..0] == o.writes;
      } else {
        var next := Connected(sock.peer.(outbound := Outbound(o.writes + [w[0]], o.accepts - 1)));
        assert SockSendAll(sock, w[0]) == Ok(next);
        if |w| == 1 {
          assert w == [w[0]];
        } else if |w| <= o.accepts {
          assert o.writes + [w[0]] + w[1..] == o.writes + w;
        } else {
          assert w[..o.accepts] == [w[0]] + w[1..][..o.accepts - 1];
          assert o.writes + [w[0]] + w[1..][..o.accepts - 1] == o.writes + w[..o.accepts];
        }
      }
    }
  }

  /** send_in_chunks(p, size) on a socket. The attribute lookup of
      jet_socket.sendall comes before struct.pack, so an unset socket raises
      AttributeError whatever the length. */
  function Send(sock: Socket, p: seq<byte>, size: Cap): (r: (Result<()>, Socket))
    ensures r.0 == Err(HeaderOverflow) <==> |p| >= U32Bound && !sock.Unset?
    ensures sock.Unset? ==> r == (Err(NoSocket), sock)
    ensures |p| >= U32Bound ==> r.1 == sock
    ensures r.0.Err? ==> r.0.error in {HeaderOverflow, SocketError, NoSocket}
    ensures r.1.Connected? <==> sock.Connected?
    ensures sock.Closed? ==> r.0.Err? && r.1 == sock
    ensures sock.Closed? && |p| < U32Bound ==> r.0 == Err(SocketError)
    ensures r.0.Ok? ==> r.1.Connected?
    ensures sock.Connected? && |p| < U32Bound ==>
              var w := FrameWrites(p, size);
              var before, after := sock.peer.outbound.writes, r.1.peer.outbound.writes;
              && r.1.peer.inbound == sock.peer.inbound
              && |before| <= |after| <= |before| + |w|
              && after == before + w[..|after| - |before|]
              && (r.0.Ok? <==> |w| <= sock.peer.outbound.accepts)
              && (r.0.Ok? <==> after == before + w)
  {
    if sock.Unset? then (Err(NoSocket), sock)
    else
      match PackU32(|p|)
      case None => (Err(HeaderOverflow), sock)
      case Some(h) => SendWrites(sock, FrameWrites(p, size))
  }

  // -------------------------------------------------------------- receiving

  /** Slicing a suffix is slicing the whole. */
  lemma SuffixSlices(a: seq<byte>, i: nat, lo: nat, hi: nat)
    requires i + hi <= |a| && lo <= hi
    ensures a[i..][lo..hi] == a[i + lo..i + hi]
    ensures a[i..][..hi] == a[i..i + hi] && a[i..][hi..] == a[i + hi..]
  {
  }

  /** The first m elements are the first c, then the next m - c. */
  lemma PrefixSplit(a: seq<byte>, c: nat, m: nat)
    requires c <= m <= |a|
    ensures a[..m] == a[..c] + a[c..][..m - c]
    ensures a[c..][m - c..] == a[m..]
  {
    assert a[c..][..m - c] == a[c..m];
  }

  /** The body loop of receive_in_chunks: while fewer than `total` bytes have
      arrived, recv(min(4096, total - len(data))); an empty read raises
      `onClose`. It never gives bytes back to the stream, returns exactly
      `total` bytes when it ends normally, and raises nothing but `onClose`. */
  function ReadExactly(s: Inbound, total: nat, data: seq<byte>, onClose: Error): (r: (Result<seq<byte>>, Inbound))
    requires |data| <= total
    ensures |r.1.pending| <= |s.pending|
    ensures r.0.Ok? ==> |r.0.value| == total
    ensures r.0.Err? ==> r.0.error == onClose
    decreases total - |data|
  {
    if |data| < total then
      var got := Recv(s, Min(RecvChunkSize, total - |data|));
      if got.0 == [] then (Err(onClose), got.1)
      else ReadExactly(got.1, total, data + got.0, onClose)
    else
      (Ok(data), s)
  }

  /** What the body loop promises about its result r: the missing bytes
      exactly when the stream holds them, however the network splits them,
      and nothing more consumed; an early close raises `onClose` with the
      stream drained. */
  predicate ReadsExactly(s: Inbound, total: nat, data: seq<byte>, onClose: Error, r: (Result<seq<byte>>, Inbound))
    requires |data| <= total
  {
    && (r.0.Ok? <==> total - |data| <= |s.pending|)
    && (r.0.Ok? ==> r.0.value == data + s.pending[..total - |data|]
                    && r.1.pending == s.pending[total - |data|..])
    && (r.0.Err? ==> r.0.error == onClose && r.1.pending == [])
  }

  /** If the rest of the loop keeps the promise after a non-empty first
      read, the loop keeps it from the start. */
  lemma ReadExactlyExtend(s: Inbound, total: nat, data: seq<byte>, onClose: Error, r: (Result<seq<byte>>, Inbound))
    requires |data| < total
    requires var got := Recv(s, Min(RecvChunkSize, total - |data|));
             got.0 != [] && ReadsExactly(got.1, total, data + got.0, onClose, r)
    ensures ReadsExactly(s, total, data, onClose, r)
  {
    var m := total - |data|;
    var got := Recv(s, Min(RecvChunkSize, m));
    var c := |got.0|;
    assert c <= m && got.0 == s.pending[..c] && got.1.pending == s.pending[c..];
    if r.0.Ok? {
      PrefixSplit(s.pending, c, m);
      assert r.0.value == data + (got.0 + got.1.pending[..m - c]);
    }
  }

  lemma {:induction false} ReadExactlySpec(s: Inbound, total: nat, data: seq<byte>, onClose: Error)
    requires |data| <= total
    ensures ReadsExactly(s, total, data, onClose, ReadExactly(s, total, data, onClose))
    decreases total - |data|
  {
    if |data| < total {
      var got := Recv(s, Min(RecvChunkSize, total - |data|));
      if got.0 != [] {
        var r := ReadExactly(got.1, total, data + got.0, onClose);
        ReadExactlySpec(got.1, total, data + got.0, onClose);
        ReadExactlyExtend(s, total, data, onClose, r);
      }
    }
  }

  /** A stream without a delivery script keeps none after the body loop. */
  lemma {:induction false} ReadExactlyNoCaps(s: Inbound, total: nat, data: seq<byte>, onClose: Error)
    requires |data| <= total && s.caps == []
    ensures ReadExactly(s, total, data, onClose).1.caps == []
    decreases total - |data|
  {
    if |data| < total {
      var got := Recv(s, Min(RecvChunkSize, total - |data|));
      if got.0 != [] {
        ReadExactlyNoCaps(got.1, total, data + got.0, onClose);
      }
    }
  }

  /** The single header read recv(4) hands over all four header bytes. */
  predicate HeaderWhole(s: Inbound)
  {
    HeaderSize <= |s.pending| && (s.caps == [] || HeaderSize <= s.caps[0])
  }

  /** What a receive promises once it holds the whole header: the frame the
      header announces when the stream holds all of it, with nothing after
      it consumed; otherwise ClosedPrematurely with the stream drained. */
  predicate ReadsFrame(s: Inbound, r: (Result<seq<byte>>, Inbound))
    requires HeaderSize <= |s.pending|
  {
    var n := UnpackU32(s.pending[..HeaderSize]);
    && (r.0.Ok? <==> HeaderSize + n <= |s.pending|)
    && (r.0.Ok? ==> r.0.value == s.pending[HeaderSize..HeaderSize + n]
                    && r.1.pending == s.pending[HeaderSize + n..])
    && (r.0.Err? ==> r.0.error == ClosedPrematurely && r.1.pending == [])
  }

  /** The body loop after a whole header keeps the frame promise. */
  lemma BodyReadsFrame(s: Inbound, after: Inbound)
    requires HeaderSize <= |s.pending| && after.pending == s.pending[HeaderSize..]
    ensures var n := UnpackU32(s.pending[..HeaderSize]);
            ReadsFrame(s, ReadExactly(after, n, [], ClosedPrematurely))
  {
    var n := UnpackU32(s.pending[..HeaderSize]);
    ReadExactlySpec(after, n, [], ClosedPrematurely);
    if HeaderSize + n <= |s.pending| {
      SuffixSlices(s.pending, HeaderSize, 0, n);
    }
  }

  /** receive_in_chunks on an inbound stream, before unpickling: one recv(4)
      for the header, RuntimeError when it gives fewer than 4 bytes, then the
      body loop for the decoded length. It only takes bytes off the stream,
      delivers a body whose length fits the header, and raises one of the two
      RuntimeErrors. */
  function Receive(s: Inbound): (r: (Result<seq<byte>>, Inbound))
    ensures |r.1.pending| <= |s.pending|
    ensures r.0.Ok? ==> |r.0.value| < U32Bound
    ensures r.0.Err? ==> r.0.error == ShortHeader || r.0.error == ClosedPrematurely
  {
    var header := Recv(s, HeaderSize);
    if |header.0| < HeaderSize then (Err(ShortHeader), header.1)
    else ReadExactly(header.1, UnpackU32(header.0), [], ClosedPrematurely)
  }

  /** ShortHeader exactly when the first read brings fewer than four bytes,
      after consuming at most three; otherwise the frame promise. */
  lemma ReceiveSpec(s: Inbound)
    ensures var r := Receive(s);
            && (r.0 == Err(ShortHeader) <==> !HeaderWhole(s))
            && (!HeaderWhole(s) ==>
                  |r.1.pending| <= |s.pending| < |r.1.pending| + HeaderSize
                  && r.1.pending == s.pending[|s.pending| - |r.1.pending|..])
            && (HeaderWhole(s) ==> ReadsFrame(s, r))
  {
    var header := Recv(s, HeaderSize);
    if |header.0| == HeaderSize {
      assert header.0 == s.pending[..HeaderSize] && header.1.pending == s.pending[HeaderSize..];
      BodyReadsFrame(s, header.1);
      assert Receive(s) == ReadExactly(header.1, UnpackU32(s.pending[..HeaderSize]), [], ClosedPrematurely);
    }
  }

  /** A stream without a delivery script keeps none after a receive. */
  lemma ReceiveNoCaps(s: Inbound)
    requires s.caps == []
    ensures Receive(s).1.caps == []
  {
    var header := Recv(s, HeaderSize);
    if |header.0| == HeaderSize {
      ReadExactlyNoCaps(header.1, UnpackU32(header.0), [], ClosedPrematurely);
    }
  }

  /** A successful receive took exactly one frame off the stream: a header
      holding the body's length, then the body. */
  lemma ReceiveTakesFrame(s: Inbound)
    requires Receive(s).0.Ok?
    ensures var r := Receive(s);
            && |r.0.value| < U32Bound
            && s.pending == PackU32(|r.0.value|).value + r.0.value + r.1.pending
  {
    ReceiveSpec(s);
    var r := Receive(s);
    var header := s.pending[..HeaderSize];
    var n := UnpackU32(header);
    PackUnpack(header);
    assert s.pending == header + r.0.value + r.1.pending;
  }

  /** A receive whose header, too, is read until four bytes have arrived or
      the peer closes. Its bounds and errors are those of Receive. */
  function ReceiveWholeHeader(s: Inbound): (r: (Result<seq<byte>>, Inbound))
    ensures |r.1.pending| <= |s.pending|
    ensures r.0.Ok? ==> |r.0.value| < U32Bound
    ensures r.0.Err? ==> r.0.error == ShortHeader || r.0.error == ClosedPrematurely
  {
    var header := ReadExactly(s, HeaderSize, [], ShortHeader);
    if header.0.Err? then header
    else ReadExactly(header.1, UnpackU32(header.0.value), [], ClosedPrematurely)
  }

  /** ShortHeader exactly when the stream holds fewer than four bytes;
      otherwise the frame promise, whatever the split of the stream. */
  lemma ReceiveWholeHeaderSpec(s: Inbound)
    ensures var r := ReceiveWholeHeader(s);
            && (r.0 == Err(ShortHeader) <==> |s.pending| < HeaderSize)
            && (HeaderSize <= |s.pending| ==> ReadsFrame(s, r))
  {
    var header := ReadExactly(s, HeaderSize, [], ShortHeader);
    ReadExactlySpec(s, HeaderSize, [], ShortHeader);
    if HeaderSize <= |s.pending| {
      var none: seq<byte> := [];
      assert header.0 == Ok(none + s.pending[..HeaderSize]) && header.1.pending == s.pending[HeaderSize..];
      assert none + s.pending[..HeaderSize] == s.pending[..HeaderSize];
      BodyReadsFrame(s, header.1);
      assert ReceiveWholeHeader(s) == ReadExactly(header.1, UnpackU32(s.pending[..HeaderSize]), [], ClosedPrematurely);
    } else {
      assert header.0 == Err(ShortHeader);
    }
  }

  // ------------------------------------------------------------ round trips

  /** A frame is received intact, and nothing after it is consumed, whenever
      the first read delivers the whole header: the body may arrive split in
      any way. */
  lemma ReceiveRoundTrip(p: seq<byte>, rest: seq<byte>, caps: seq<Cap>)
    requires |p| < U32Bound
    requires caps == [] || HeaderSize <= caps[0]
    ensures var r := Receive(Inbound(PackU32(|p|).value + p + rest, caps));
            r.0 == Ok(p) && r.1.pending == rest
  {
    var bytes := PackU32(|p|).value + p + rest;
    ReceiveSpec(Inbound(bytes, caps));
    UnpackPack(|p|);
    assert bytes[..HeaderSize] == PackU32(|p|).value;
    assert bytes[HeaderSize..HeaderSize + |p|] == p;
    assert bytes[HeaderSize + |p|..] == rest;
  }

  /** With the header read to completion, a frame is received intact for
      every split of the stream. */
  lemma ReceiveWholeHeaderRoundTrip(p: seq<byte>, rest: seq<byte>, caps: seq<Cap>)
    requires |p| < U32Bound
    ensures var r := ReceiveWholeHeader(Inbound(PackU32(|p|).value + p + rest, caps));
            r.0 == Ok(p) && r.1.pending == rest
  {
    var bytes := PackU32(|p|).value + p + rest;
    ReceiveWholeHeaderSpec(Inbound(bytes, caps));
    UnpackPack(|p|);
    assert bytes[..HeaderSize] == PackU32(|p|).value;
    assert bytes[HeaderSize..HeaderSize + |p|] == p;
    assert bytes[HeaderSize + |p|..] == rest;
  }

  /** What a successful send_in_chunks hands the peer is one frame that the
      peer's receive_in_chunks reads back as the payload. */
  lemma SendThenReceive(sock: Socket, p: seq<byte>, size: Cap, rest: seq<byte>, caps: seq<Cap>)
    requires Send(sock, p, size).0.Ok?
    requires caps == [] || HeaderSize <= caps[0]
    ensures sock.Connected? && Send(sock, p, size).1.Connected?
    ensures var before, after := sock.peer.outbound.writes, Send(sock, p, size).1.peer.outbound.writes;
            && |before| <= |after| && after[..|before|] == before
            && Receive(Inbound(Flatten(after[|before|..]) + rest, caps)).0 == Ok(p)
            && Receive(Inbound(Flatten(after[|before|..]) + rest, caps)).1.pending == rest
  {
    var before, after := sock.peer.outbound.writes, Send(sock, p, size).1.peer.outbound.writes;
    assert after == before + FrameWrites(p, size);
    assert after[|before|..] == FrameWrites(p, size);
    ReceiveRoundTrip(p, rest, caps);
  }

  // ------------------------------------------------------- the split header

  /** As written, a frame whose header the network splits (two bytes, then
      the rest) is refused with ShortHeader although all of it was sent;
      the whole-header receive returns it. */
  lemma SplitHeaderRefused(p: seq<byte>, rest: seq<byte>, caps: seq<Cap>)
    requires |p| < U32Bound
    ensures Receive(Inbound(PackU32(|p|).value + p + rest, [2] + caps)).0 == Err(ShortHeader)
    ensures ReceiveWholeHeader(Inbound(PackU32(|p|).value + p + rest, [2] + caps)).0 == Ok(p)
  {
    ReceiveSpec(Inbound(PackU32(|p|).value + p + rest, [2] + caps));
    ReceiveWholeHeaderRoundTrip(p, rest, [2] + caps);
  }

  /** On a stream that delivers whatever is asked: a frame, then an empty
      frame, then a peer that closes before the next header is complete. */
  lemma FramesThenShortHeader(p: seq<byte>, tail: seq<byte>)
    requires |p| < U32Bound && |tail| < HeaderSize
    ensures var stream := Inbound(PackU32(|p|).value + p + PackU32(0).value + tail, []);
            var first := Receive(stream);
            var second := Receive(first.1);
            var third := Receive(second.1);
            && first.0 == Ok(p)
            && second.0 == Ok([])
            && third.0 == Err(ShortHeader) && third.1.pending == []
  {
    var empty := PackU32(0).value;
    var stream := Inbound(PackU32(|p|).value + p + empty + tail, []);
    assert stream.pending == PackU32(|p|).value + p + (empty + tail);
    ReceiveRoundTrip(p, empty + tail, []);
    ReceiveNoCaps(stream);
    var first := Receive(stream);
    assert first.1 == Inbound(empty + tail, []);
    var none: seq<byte> := [];
    assert empty + tail == PackU32(|none|).value + none + tail;
    ReceiveRoundTrip(none, tail, []);
    ReceiveNoCaps(first.1);
    var second := Receive(first.1);
    assert second.1 == Inbound(tail, []);
    ReceiveSpec(second.1);
  }

  /** Five bytes "hello", then an empty frame, then a peer that closes two
      bytes into the next header. */
  lemma HelloThenEmptyThenShortHeader()
    ensures var stream := Inbound([0, 0, 0, 5, 104, 101, 108, 108, 111, 0, 0, 0, 0, 0, 0], []);
            var first := Receive(stream);
            var second := Receive(first.1);
            var third := Receive(second.1);
            && first.0 == Ok([104, 101, 108, 108, 111])
            && second.0 == Ok([])
            && third.0 == Err(ShortHeader)
  {
    var hello: seq<byte> := [104, 101, 108, 108, 111];
    assert PackU32(|hello|).value == [0, 0, 0, 5] && PackU32(0).value == [0, 0, 0, 0];
    assert [0, 0, 0, 5, 104, 101, 108, 108, 111, 0, 0, 0, 0, 0, 0] == PackU32(|hello|).value + hello + PackU32(0).value + [0, 0];
    FramesThenShortHeader(hello, [0, 0]);
  }
}
