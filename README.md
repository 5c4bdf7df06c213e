# A verified model of the ST–Jetson GNC bridge

The bridge (`st_orin_gnc_bridge.py`) sits between two TCP peers:
- **ST** (Space Teams) sends camera frames.
- **Jet** (a Jetson) turns a frame, together with the latest GNC (guidance, navigation and control) position and attitude, into a relative pose.

Every message in either direction is a frame: a 4-byte big-endian length followed by that many payload bytes.
- `send_in_chunks` writes the header with one `sendall`, then the payload in slices of at most 4096 bytes.
- `receive_in_chunks` reads the header with one `recv(4)`, then reads the body until the announced length has arrived.
- `full_bridge_mode` repeats one relay cycle:
  1. receive an image from ST;
  2. send Jet a record with the image and the cached GNC position and attitude;
  3. read Jet's reply with a single `recv(4096)`.

  When one of `socket.error`, `OSError` or `RuntimeError` is raised, it closes both sockets, ignoring errors from `close`, and reconnects Jet and then ST. Each connect is retried until it succeeds.
- The ROS callbacks `update_GNC_position` and `update_GNC_attitude` overwrite the cache.

The model has four modules:

- `Wire` (`wire.dfy`): bytes, the `"!I"` header (`struct.pack` and `struct.unpack`) and their round trips.
- `Transport` (`transport.dfy`): a socket as an abstract byte stream.
  - The inbound side is the pending bytes plus a script of *caps*, one per `recv` call. A `recv(n)` returns `min(n, cap, pending)` bytes.
  - Quantifying over the script therefore covers every way TCP can split the stream.
  - An empty read happens exactly when nothing is pending, which models a closed peer.
  - The outbound side is the list of `sendall` writes plus how many further writes the peer accepts before the connection breaks.
- `Framing` (`framing.dfy`): the send and receive of one frame as functions of the streams, with:
  - the chunking facts;
  - the receive guarantees, for every split of the stream;
  - the round trip, send then receive;
  - the header finding below.
- `GncBridge` (`bridge.dfy`):
  - the class `Bridge`, whose fields are:
    - the two sockets;
    - the two cache fields;
    - a ghost trace of socket actions (closes and connects), which the program's object does not have and the proofs use;
  - its methods: one for each socket-level method of the source (`receive_in_chunks`, `send_in_chunks`, the two connects, the two closes, the two GNC callbacks), and three for the pieces of `full_bridge_mode` (`RelayOnce`, one pass up to the increment; `RecoverFromFault`, the `except` branch; `LoopPass`, one iteration), plus `FullBridgeMode` itself;
  - the receive, send, relay, recovery and loop methods are each proved equal to a specification function over the fields; the callbacks, closes and connects state their new fields directly;
  - the loop `RunLoop`, as a function with lemmas about the whole run:
    - `image_number` counts exactly the completed cycles;
    - the loop never writes the cache;
    - its socket actions form a series of recoveries, each closing both sockets and then reconnecting Jet before ST;
    - every caught exception starts exactly one recovery, except a last one met after the reconnection script has run out;
    - it ends only on an exception outside its `except` clause, or on a peer that never comes back (a peer that stays connected but silent is not modelled; see "Left out").

The payload codec (`pickle.loads`, `pickle.dumps` and the dictionary lookups around them) is a parameter of type `Codec`. Its failures are `None`. `Codec.loadImage` also covers `cv2.imwrite` of the image (line 124): `imwrite` raises `cv2.error` for an image it cannot encode, which is just as uncaught as a `pickle` error, so `loadImage` returns `None` for it. `Codec.loadResponse` returns `None` also when an entry of the reply's relative pose is not a number, which makes the `%f` formatting of the print at line 144 raise `TypeError`.

In these places the model follows the code, although a more forgiving behaviour might be expected of the bridge:
- An exception from the codec, on an ST frame (`pickle.loads`, `['camera0']`, `cv2.imwrite`) or on Jet's reply, is not in the loop's `except` tuple. The program ends (`Crashed`) instead of reconnecting or carrying on with a degraded cycle, so `Relay` stops the run with `Crash(CodecError)`.
- With `connect_to_ST` false, `st_socket` is never assigned (lines 47-48). The first `recv` on it raises `AttributeError`, which the loop does not catch either (`Crash(NoSocket)`); a `close` on it raises too, and the bare `except` swallows that.
- A payload of 2^32 bytes or more makes `struct.pack` raise `struct.error`. This is also uncaught (`Crash(HeaderOverflow)`).
- Jet's reply is read with one `recv(4096)`, not with the framed receive. An empty reply (Jet closed) makes `pickle.loads(b"")` raise `EOFError`, which also ends the program.
- An empty ST frame (header 0) is received, but `pickle.loads(b"")` at line 106 then raises `EOFError`, uncaught as well (`Crash(CodecError)`).
- The print at line 144 indexes three entries of the relative position and four of the relative attitude. A reply with fewer raises `IndexError`, which is not caught either (`Crash(ReplyFormat)`); a completed cycle therefore always carries a reply that passes `PrintableReply`.
- The header is read with a single `recv(4)` rather than until four bytes have arrived (see Findings).

`FullBridgeMode` takes a ghost parameter `relay` and requires `RelaysWith(relay, codec)`. That predicate says `relay` is `Relay` with this codec. It only names the loop body for the proofs and adds no behaviour.

## Model

| member | source | states |
|---|---|---|
| Wire.PackU32 | catkin_ws/src/astrosee_bridge/scripts/st_orin_gnc_bridge.py:281 | the header exists exactly when the length is below 2^32 (otherwise `struct.error`), and is 4 bytes long |
| Wire.UnpackU32 | catkin_ws/src/astrosee_bridge/scripts/st_orin_gnc_bridge.py:94 | a decoded header is an unsigned 32-bit length |
| Wire.UnpackPack | catkin_ws/src/astrosee_bridge/scripts/st_orin_gnc_bridge.py:94 | unpacking the packed header of any encodable length gives that length back |
| Wire.PackUnpack | catkin_ws/src/astrosee_bridge/scripts/st_orin_gnc_bridge.py:94 | every 4-byte header is the encoding of the length it decodes to, so decoding loses nothing |
| Transport.Recv | catkin_ws/src/astrosee_bridge/scripts/st_orin_gnc_bridge.py:100-101 | a read returns a prefix of the pending bytes of at most `n` bytes and leaves the rest; it is empty exactly when `n` is 0 or the peer has closed; it is a full `n` bytes exactly when that many are pending and the split allows it |
| Transport.SockSendAll | catkin_ws/src/astrosee_bridge/scripts/st_orin_gnc_bridge.py:289 | `sendall` succeeds exactly on a connected socket whose peer still accepts writes, and then appends exactly that write |
| Framing.ChunksFrom | catkin_ws/src/astrosee_bridge/scripts/st_orin_gnc_bridge.py:286-290 | the send loop sends no chunk exactly when `total_sent` has reached the payload length |
| Framing.Chunks | catkin_ws/src/astrosee_bridge/scripts/st_orin_gnc_bridge.py:286-290 | a payload is sent as no chunk at all exactly when it is empty |
| Framing.ChunkSizes | catkin_ws/src/astrosee_bridge/scripts/st_orin_gnc_bridge.py:288 | every chunk is non-empty and at most `chunk_size` long, and every chunk but the last is exactly `chunk_size` long |
| Framing.ChunksConcat | catkin_ws/src/astrosee_bridge/scripts/st_orin_gnc_bridge.py:286-290 | the chunks put back together are exactly the payload from `total_sent` on |
| Framing.ChunkSlices | catkin_ws/src/astrosee_bridge/scripts/st_orin_gnc_bridge.py:288 | chunk `i` is `serialized_data[u:u + chunk_size]` for `u = total_sent + i * chunk_size`, and `u` is inside the payload |
| Framing.FrameWrites | catkin_ws/src/astrosee_bridge/scripts/st_orin_gnc_bridge.py:278-290 | the writes of one frame are the 4-byte header of the payload length, then chunks of 1 to `chunk_size` bytes; they concatenate to header plus payload; the header is the only write exactly when the payload is empty |
| Framing.SendWrites | catkin_ws/src/astrosee_bridge/scripts/st_orin_gnc_bridge.py:281-290 | handing a list of writes to `sendall` one after another only touches the outbound side; it fails only on a non-empty list, with `AttributeError` on an unset socket and `OSError` otherwise |
| Framing.SendWritesCons | catkin_ws/src/astrosee_bridge/scripts/st_orin_gnc_bridge.py:281-289 | handing a list of writes to the socket is one `sendall` of the first, stopping with `OSError` when it fails, then the rest |
| Framing.Send | catkin_ws/src/astrosee_bridge/scripts/st_orin_gnc_bridge.py:269-290 | see the bullets below this table |
| Framing.ReadExactly | catkin_ws/src/astrosee_bridge/scripts/st_orin_gnc_bridge.py:98-103 | the body loop never gives bytes back to the stream, returns exactly `total_size` bytes when it ends normally, and raises nothing but "Connection closed prematurely" |
| Framing.ReadExactlySpec | catkin_ws/src/astrosee_bridge/scripts/st_orin_gnc_bridge.py:98-103 | the body loop returns exactly the missing bytes when the stream holds them, for every split of the stream, and consumes nothing beyond them; otherwise it raises "Connection closed prematurely" once the stream is drained |
| Framing.ReadExactlyNoCaps | catkin_ws/src/astrosee_bridge/scripts/st_orin_gnc_bridge.py:98-103 | on a stream that hands over whatever is asked, the body loop leaves a stream that still does |
| Framing.Receive | catkin_ws/src/astrosee_bridge/scripts/st_orin_gnc_bridge.py:83-103 | `receive_in_chunks` as written (one `recv(4)` for the header): it only takes bytes off the stream, delivers a body whose length fits in 32 bits, and raises only one of its two `RuntimeError`s |
| Framing.ReceiveSpec | catkin_ws/src/astrosee_bridge/scripts/st_orin_gnc_bridge.py:83-103 | "Failed to receive the header" is raised exactly when the first `recv(4)` does not bring all four header bytes, and it consumes at most three bytes; otherwise the frame the header announces is returned when the stream holds all of it, and "Connection closed prematurely" is raised otherwise |
| Framing.ReceiveNoCaps | catkin_ws/src/astrosee_bridge/scripts/st_orin_gnc_bridge.py:83-103 | on a stream that hands over whatever is asked, a receive leaves a stream that still does |
| Framing.ReceiveTakesFrame | catkin_ws/src/astrosee_bridge/scripts/st_orin_gnc_bridge.py:83-103 | a successful receive took exactly one frame off the stream: a header that encodes the body's length, the body, and nothing more |
| Framing.ReceiveRoundTrip | catkin_ws/src/astrosee_bridge/scripts/st_orin_gnc_bridge.py:83-103 | a frame followed by any bytes is received intact, with exactly those bytes left, whenever the first read delivers the whole header, however the body is split |
| Framing.SendThenReceive | catkin_ws/src/astrosee_bridge/scripts/st_orin_gnc_bridge.py:269-290 | a successful `send_in_chunks` appends to the peer's writes one frame that the peer's `receive_in_chunks` reads back as the same payload |
| Framing.FramesThenShortHeader | catkin_ws/src/astrosee_bridge/scripts/st_orin_gnc_bridge.py:83-103 | on an unsplit stream, any frame, then an empty frame, then fewer than four bytes give the payload, then an empty payload, then "Failed to receive the header" |
| Framing.HelloThenEmptyThenShortHeader | catkin_ws/src/astrosee_bridge/scripts/st_orin_gnc_bridge.py:83-103 | the bytes `00 00 00 05 "hello" 00 00 00 00 00 00` are received as `hello`, then as an empty payload, then as "Failed to receive the header" |
| Framing.SplitHeaderRefused | catkin_ws/src/astrosee_bridge/scripts/st_orin_gnc_bridge.py:89-91 | a complete frame whose header the network delivers as two bytes and then the rest is refused with "Failed to receive the header", while the whole-header receive returns its payload |
| Framing.ReceiveWholeHeader | catkin_ws/src/astrosee_bridge/scripts/st_orin_gnc_bridge.py:88-103 | the corrected receive, whose header is read until four bytes arrive or the peer closes: it only takes bytes off the stream, delivers a body whose length fits in 32 bits, and raises only the header or the body error |
| Framing.ReceiveWholeHeaderSpec | catkin_ws/src/astrosee_bridge/scripts/st_orin_gnc_bridge.py:88-103 | with the header read until four bytes arrive, the header error happens exactly when the stream holds fewer than four bytes, and otherwise the frame guarantees hold, for every split |
| Framing.ReceiveWholeHeaderRoundTrip | catkin_ws/src/astrosee_bridge/scripts/st_orin_gnc_bridge.py:88-103 | with the header read until four bytes arrive, every frame is received intact for every split of the stream |
| GncBridge.FirstSuccess | catkin_ws/src/astrosee_bridge/scripts/st_orin_gnc_bridge.py:57-66 | the retry loop stops at the first successful attempt and at no earlier one; with no successful attempt it never stops |
| GncBridge.RetryConnect | catkin_ws/src/astrosee_bridge/scripts/st_orin_gnc_bridge.py:57-66 | the retry loop stops at the first successful attempt |
| GncBridge.ReceiveOn | catkin_ws/src/astrosee_bridge/scripts/st_orin_gnc_bridge.py:83-104 | a receive on a closed socket raises `OSError`; on a connected one it is the frame receive of its stream and leaves the outbound side alone; every error it raises is one the loop catches |
| GncBridge.Forward | catkin_ws/src/astrosee_bridge/scripts/st_orin_gnc_bridge.py:128-149 | the Jet half of a cycle changes only the Jet socket; it faults only on caught exceptions and crashes only on uncaught ones; it completes only with the record it was given and a reply with at least three position and four attitude entries, as the print at line 144 needs |
| GncBridge.Relay | catkin_ws/src/astrosee_bridge/scripts/st_orin_gnc_bridge.py:116-176 | one pass never changes the cache or the socket-action log; it faults only on caught exceptions and crashes only on uncaught ones; a completed record carries the current cache and its reply survives the print at line 144; a failed ST receive raises before touching Jet |
| GncBridge.ReceivedFrame | catkin_ws/src/astrosee_bridge/scripts/st_orin_gnc_bridge.py:119 | a successful receive on the ST socket took exactly one frame off its stream |
| GncBridge.CompletedForward | catkin_ws/src/astrosee_bridge/scripts/st_orin_gnc_bridge.py:128-141 | a completed Jet half handed Jet exactly the frame of the pickled record and read a reply of 1 to 4096 bytes |
| GncBridge.CompletedRelay | catkin_ws/src/astrosee_bridge/scripts/st_orin_gnc_bridge.py:116-176 | see the bullets below this table |
| GncBridge.AfterClose | catkin_ws/src/astrosee_bridge/scripts/st_orin_gnc_bridge.py:292-300 | after `close`, a socket is no longer connected, and an attribute that was never assigned is still unassigned |
| GncBridge.Reconnect | catkin_ws/src/astrosee_bridge/scripts/st_orin_gnc_bridge.py:177-191 | recovery succeeds exactly when both retry loops reach a success; it then leaves both sockets connected to the new peers after close ST, close Jet, connect Jet, connect ST; otherwise ST is left unconnected; the cache is untouched |
| GncBridge.RecoveryOrder | catkin_ws/src/astrosee_bridge/scripts/st_orin_gnc_bridge.py:177-191 | in every recovery both closes come before any connect, and Jet is reconnected before ST |
| GncBridge.RecoveryLogAfterReconnect | catkin_ws/src/astrosee_bridge/scripts/st_orin_gnc_bridge.py:177-191 | one recovery only appends to the socket-action log, and what it appends is a recovery; a successful one appends the whole sequence |
| GncBridge.RecoveryCounts | catkin_ws/src/astrosee_bridge/scripts/st_orin_gnc_bridge.py:177-191 | every recovery closes the ST socket exactly once, and reconnects it exactly once when both peers come back and never otherwise |
| GncBridge.RunLoop | catkin_ws/src/astrosee_bridge/scripts/st_orin_gnc_bridge.py:111-191 | a run of `full_bridge_mode` allowed `fuel` passes records at most one outcome per pass; its lemmas below state the rest |
| GncBridge.RunLoopCounts | catkin_ws/src/astrosee_bridge/scripts/st_orin_gnc_bridge.py:114-176 | every pass of the loop records one outcome, and `image_number` grows by exactly the number of completed cycles |
| GncBridge.RunLoopKeepsCache | catkin_ws/src/astrosee_bridge/scripts/st_orin_gnc_bridge.py:111-191 | a loop whose passes leave the cache alone keeps it over the whole run; if its passes crash only on uncaught exceptions, so does the loop |
| GncBridge.RunLoopEvents | catkin_ws/src/astrosee_bridge/scripts/st_orin_gnc_bridge.py:111-191 | a loop whose passes perform no socket action only appends recoveries to the socket-action log |
| GncBridge.RunLoopRecoveries | catkin_ws/src/astrosee_bridge/scripts/st_orin_gnc_bridge.py:176-191 | the number of caught exceptions equals the number of recoveries begun, plus one when the run stops because the reconnection script ran out; every recovery reopens ST except a last one that blocks |
| GncBridge.RunLoopStops | catkin_ws/src/astrosee_bridge/scripts/st_orin_gnc_bridge.py:115-191 | a run that is not cut short makes every pass it is allowed; one that stops early stops on the pass that caused it: a caught exception when reconnection is impossible, the uncaught exception itself on a crash |
| GncBridge.BridgeRun | catkin_ws/src/astrosee_bridge/scripts/st_orin_gnc_bridge.py:111-191 | a run of the bridge's loop records at most one outcome per pass; `image_number` equals the number of completed cycles; the cache is never written; it crashes only on an exception outside `(socket.error, OSError, RuntimeError)`, on the pass that raised it; its socket actions are a series of recoveries, and each caught exception starts exactly one, except a last one met after the reconnection script ran out |
| GncBridge.Bridge.constructor | catkin_ws/src/astrosee_bridge/scripts/st_orin_gnc_bridge.py:25-49 | the cache starts at position `[0, 0, 0]` and attitude `[0, 0, 0, 1]`; ST is connected first, and only when asked, its attribute staying unassigned otherwise; then Jet is connected |
| GncBridge.Bridge.UpdateGncPosition | catkin_ws/src/astrosee_bridge/scripts/st_orin_gnc_bridge.py:261-263 | the cached position becomes the message's data, and nothing else changes |
| GncBridge.Bridge.UpdateGncAttitude | catkin_ws/src/astrosee_bridge/scripts/st_orin_gnc_bridge.py:265-267 | the cached attitude becomes the message's data, and nothing else changes |
| GncBridge.Bridge.ReceiveInChunks | catkin_ws/src/astrosee_bridge/scripts/st_orin_gnc_bridge.py:83-104 | the method's result and the new ST socket are those of `ReceiveOn` on the old socket, whose guarantees are `Framing.ReceiveSpec` |
| GncBridge.Bridge.ReceiveBody | catkin_ws/src/astrosee_bridge/scripts/st_orin_gnc_bridge.py:98-103 | the body loop's result and the new ST socket are those of `Framing.ReadExactly` on the old stream |
| GncBridge.Bridge.SendInChunks | catkin_ws/src/astrosee_bridge/scripts/st_orin_gnc_bridge.py:269-290 | the method's result and the new Jet socket are those of `Framing.Send` on the old socket |
| GncBridge.Bridge.RelayOnce | catkin_ws/src/astrosee_bridge/scripts/st_orin_gnc_bridge.py:116-176 | the outcome and the new fields of one cycle are those of `Relay` on the old fields |
| GncBridge.Bridge.CloseStSocket | catkin_ws/src/astrosee_bridge/scripts/st_orin_gnc_bridge.py:292-295 | the ST socket is closed, with the close logged, whether or not `close` raises |
| GncBridge.Bridge.CloseJetSocket | catkin_ws/src/astrosee_bridge/scripts/st_orin_gnc_bridge.py:297-300 | the Jet socket is closed, with the close logged, whether or not `close` raises |
| GncBridge.Bridge.ConnectSocketToSt | catkin_ws/src/astrosee_bridge/scripts/st_orin_gnc_bridge.py:53-66 | a fresh ST socket is connected, with the connect logged, exactly when an attempt succeeds |
| GncBridge.Bridge.ConnectSocketToJet | catkin_ws/src/astrosee_bridge/scripts/st_orin_gnc_bridge.py:68-81 | a fresh Jet socket is connected, with the connect logged, exactly when an attempt succeeds |
| GncBridge.Bridge.RecoverFromFault | catkin_ws/src/astrosee_bridge/scripts/st_orin_gnc_bridge.py:177-191 | the except branch leaves the fields that `Reconnect` gives for the old fields, and reports whether both peers came back |
| GncBridge.Bridge.LoopPass | catkin_ws/src/astrosee_bridge/scripts/st_orin_gnc_bridge.py:115-191 | one iteration of the `while True` performs exactly the first step of `RunLoop` |
| GncBridge.Bridge.FullBridgeMode | catkin_ws/src/astrosee_bridge/scripts/st_orin_gnc_bridge.py:111-191 | the final `image_number`, the reason the run stops and the final fields are those of `RunLoop`, whose properties are `GncBridge.BridgeRun` |
| GncBridge.PositionUpdateReachesRecord | catkin_ws/src/astrosee_bridge/scripts/st_orin_gnc_bridge.py:128 | after one position update on a fresh bridge, a completed cycle sends the new position with the default attitude |

`Framing.Send` states:
- It raises `struct.error` exactly when the length does not fit in 32 bits, and then leaves the socket alone.
- On a closed socket it raises `OSError` for an encodable payload.
- Otherwise the writes it makes are a prefix of the frame's writes.
- It succeeds exactly when the peer accepts all of the frame's writes, which is also exactly when it has made all of them.

`GncBridge.CompletedRelay` states that a completed cycle:
- took exactly one frame off the ST stream, whose body is not empty and decodes to the forwarded image;
- built the record from the current cache;
- handed Jet exactly that record's frame;
- read one reply of at most 4096 bytes.

## Left out

- Synchronisation between the ROS callback thread and the loop is not modelled. Each update is an atomic method call between passes, which matches the atomic attribute assignment in Python.
- The program's infinite `while True`, and the retry loops that never give up: a run is bounded by a number of passes and a script of reconnections. A peer that never comes back ends the run as `Blocked`, the point where the program would retry forever.
- Socket creation, host and port constants, and the text of the `print` output. The relative-pose print at line 144 is kept only for the exceptions it can raise: `IndexError` (a short reply, `PrintableReply`) and `TypeError` (an entry that is not a number, folded into `Codec.loadResponse` returning `None`). `quiet_mode` only gates output and is left out.
- `cv2.imwrite` of each image (line 124): the file written is left out. Its one effect on the protocol, a `cv2.error` for an image it cannot encode, is folded into `Codec.loadImage` returning `None`, which ends the run as an uncaught exception.
- `pickle`: a parameter of the model (`Codec`). Its failures, and those of the dictionary lookups on its results, are `None`.
- Numbers in positions and attitudes: they are only carried, as `seq<real>`. NumPy arrays and floating point are left out.
- `test_bridge_to_jetson`, `interface_MRS_with_ROS` and the `__main__` block: the offline replay mode, the ROS wiring and argument parsing are outside the core. `received_dock_cam_image` is not part of this model.
- Framing.Send and Transport.SockSendAll: a `sendall` that raises is recorded as having delivered nothing. The bytes a failing `sendall` may already have pushed onto the wire are not modelled, because the bridge discards a socket after any send error.
- Transport.Recv and Transport.SockSendAll: a peer that stays connected but neither sends, closes nor reads is not modelled. In the program such a peer blocks `recv` (lines 89, 100 and 139) or `sendall` (lines 281 and 289) forever, as no timeout is set anywhere, so a hung peer hangs the bridge. In the model a stream is "sends its pending bytes, then closes", and every write is accepted or refused at once; the model covers only the runs in which every peer eventually sends what is read or closes.
- Transport.Recv: a `recv` that raises `OSError` on a connected socket (connection reset) is not modelled. A read returns bytes, or nothing when the peer has closed. On the framed ST reads this only hides a fault of the same kind as an early close. On Jet's reply read (line 139) it hides more: there a `ConnectionResetError` is a caught `OSError` that leads to a recovery, while in the model that read either completes or, when empty, ends the run through the codec.
- GncBridge.Bridge.UpdateGncPosition and GncBridge.Bridge.UpdateGncAttitude: take the new vector itself. Lines 263 and 267 read `data.data`, but the topics subscribed at lines 252-255 carry `Vector3Stamped` and `QuaternionStamped`, whose values are in `.vector` and `.quaternion`; as written, each callback would raise `AttributeError` in the subscriber thread and the cache would keep its defaults. The model states the evident intent, that an update overwrites the cache; `interface_MRS_with_ROS` is never called from `__main__`, so the running program does not reach these callbacks.
- Framing.ChunksFrom and GncBridge.Bridge.SendInChunks: `chunk_size` is positive (type `Cap`). With `chunk_size` 0 the source would loop forever sending empty chunks.
- GncBridge.Bridge.constructor: its connects stand for the first successful attempt of each retry loop, with the peer reached as a parameter. A constructor that never gets through is not modelled.
- Closing a socket that raises is a flag of the environment (`Reconnection`). Since the exception is ignored, only the order of actions matters.

## Findings

| source | as written | input that shows it | evidently intended | confidence | as-written member | corrected member |
|---|---|---|---|---|---|---|
| catkin_ws/src/astrosee_bridge/scripts/st_orin_gnc_bridge.py:89-91 | the header is read with one `recv(4)`, and fewer than four bytes raise "Failed to receive the header" | a complete frame whose header the network delivers as two bytes and then the rest (`Inbound(header + payload + rest, [2] + caps)`) | the header is read until four bytes have arrived or the peer closes, as the body is | not executed | Framing.Receive (shown by Framing.SplitHeaderRefused) | Framing.ReceiveWholeHeader (Framing.ReceiveWholeHeaderSpec, Framing.ReceiveWholeHeaderRoundTrip) |

The `Bridge` class keeps the receive as written, so that each of its methods follows the program. `Framing.ReceiveWholeHeader` can replace it: `Framing.ReceiveWholeHeaderRoundTrip` proves that it returns every frame intact for every split of the stream.
