# A verified model of the p2pmc proxy core

The program connects a Minecraft client to a server behind a NAT. This project models its core
and proves what that core guarantees:

- **the wire codec** — VarInts, length-prefixed strings, the Login Disconnect packet and the handshake
  parser (`Bits`, `VarInt`, `McDisconnect`, `ParseServer`, `ParseErrors`);
- **the tunnel** — one game connection carried over a QUIC stream, from the peeked handshake to the four
  pumps, with the two handlers, both sockets and every failure stepping in any order (`Lane`, `P2pPipe`,
  `HalfClose`, `Refusals`);
- **the data-channel proxy** — the two pump tasks of `proxy_traffic` with their 4096-byte buffers, and two
  ends of it joined by an ordered message channel (`ProxyTraffic`, `ProxyPair`);
- **signalling** — the table of one-shot waiters as a class, the session as a class, and offers and replies
  between any number of sessions over a relay that loses, repeats, reorders and misroutes
  (`ResponseManager`, `Session`, `SessionLog`, `Signalling`);
- **cancellation** over a tree of tokens and any number of connections (`Dumbpipe`), and **republishing** of tickets by several
  publishers of one name (`Dht`).

`dafny verify dfyconfig.toml` checks everything.

## How it is modelled

Code that changes objects or runs a loop is a class or a method with that loop, proved against a pure
specification function; the theorems are about those functions. Spawned tasks are step systems: an action
that is not enabled changes nothing, and `Run` folds a sequence of actions, so a statement about
`Run(Initial(), actions)` for all `actions` is a statement about every reachable state of every
interleaving.

- A Rust `str` is its UTF-8 bytes. `i32`, `u32` and `usize` have their real widths: casts truncate or
  sign-extend and sums wrap, since the build turns overflow checks off (Cargo.toml:73). A slice index out of
  range is the separate outcome `Trap`.
- Shifts and masks are the bitwise operators of module `Bits`, defined bit by bit.
- `String::from_utf8_lossy` and the URL library are parameters (`ParseServer.Text`).
- Sockets, the QUIC streams and the data channel are ordered byte or message sequences. Reads and writes take
  any number of bytes; an I/O error, a timeout or a cancellation is an action that may happen at any time.
- A failing or dropped QUIC sender may either reset its stream or end it, as the environment chooses.
- The relay is the set of all packets ever sent; any of them may reach any session, any number of times.

## Findings

- `parse_handshake_buf` panics on some inputs instead of returning an error: exactly when the address length is
  negative and leads back into the buffer, or when the buffer ends behind the address with less than the two
  bytes of the port (`ParseServer.PanicsExactlyIf`). A peek that is merely too short can do this
  (`ParseServer.PartialPeek`).
- The packet length that a client announces is not compared with anything (`ParseServer.LengthIsNotChecked`). If it is
  negative and not outweighed by the bytes it takes, the handshake is accepted, and the refusal of such a client
  panics when it allocates the bytes to discard: then the client is sent nothing. If it is more than the client sends,
  the refusal waits, without a timeout, until the client sends more or closes (`ParseServer.PacketLength`,
  `McDisconnect.SendLoginDisconnect`, `P2pPipe.RefuseClient`, `P2pPipe.OutputIsExclusive`).
- The disconnect message is escaped for quotation marks and backslashes only. It is read back exactly if it has no
  control character and fits an `i32` (`McDisconnect.ReadWrittenDisconnect`). What a refused client gets always fits,
  and it quotes the routing label: it is read back exactly if the label has no control character
  (`P2pPipe.RefusedClientReads`).
- Replies are matched by a random 32-bit number. The match is right if the number is unique, and for any two
  offers with the same number there is a run in which it is wrong (`Signalling.ReplyMatchesOffer`,
  `Signalling.RepeatedNumberConfuses`).
- An offer for an id whose listener was dropped stops the reader of the whole session, and then no pending call of
  that session is ever answered (`Session.AliveExactlyIf`, `Signalling.StoppedReaderAnswersNothing`).
- The comment on `forward_bidi` (src/p2p_pipe.rs:139-141) says that both sides are aborted when either one is
  done. The code cancels at an end exactly if one of its pumps meets an I/O error or an interrupt arrives there
  (`P2pPipe.OnlyFaultsCancel`). From every state in which traffic flows, one direction can end cleanly and the other
  then still deliver everything (`HalfClose.OtherDirectionGoesOn`).
- A comment (src/p2p_pipe.rs:358) says that a connection dies on cancellation of the accept loop. That drops its
  handler only; the pumps were spawned with tokens of their own and go on (`P2pPipe.DroppingLeavesPumps`,
  `HalfClose.DroppedHandlerForwardsOn`), until closing the endpoint breaks their streams.
- One incoming attempt that cannot be accepted ends the accept loop of `listen_tcp` for everybody
  (src/dumbpipe.rs:352-354; src/p2p_pipe.rs:491-493 is the same), while `connect_tcp` survives it
  (`Dumbpipe.AcceptsExactlyIf`, `Dumbpipe.FailedAttempt`).
- `forward_bidi` can succeed at the receiving end of a direction whose sender failed: then what the sender had not put
  into the stream is missing without an error there (`P2pPipe.ForwardOkIsComplete`, `HalfClose.SuccessCanHideLoss`).
- `proxy_traffic`, in contrast, does cancel the other direction at a clean end of file. Without errors and
  cancellation from outside, what comes in at an end can be cut off exactly from the moment on at which all that goes
  out has been read, end of file included (`ProxyPair.CutExactlyAfterEof`); an answer of any length can be lost in this
  way (`ProxyPair.AnyAnswerCanBeLost`).
- The comments on text components (src/util/mc_disconnect.rs:52-55, 114-116) announce an NBT encoding from protocol
  765 on. The code sends JSON for every version, and so does the model.

## Model

| member | source | states |
|---|---|---|
| VarInt.EncodeVarInt | src/util/mc_disconnect.rs:11-25 | The loop of masks, ors and logical shifts yields the base-128 encoding of the value's 32-bit word. |
| VarInt.DecodeVarInt | src/util/mc_disconnect.rs:28-42 | The loop with its 5-byte limit yields the value of the groups up to the first byte without continuation bit, wrapped to 32 bits. |
| VarInt.Accumulate | src/util/mc_disconnect.rs:32-32 | Or-ing a shifted group onto the lower ones adds it; the fifth group loses what exceeds 32 bits. |
| VarInt.EncodingIsCanonical | src/util/mc_disconnect.rs:11-25 | Bytes are the encoding of v if and only if they are terminated, minimal (1 to 5 bytes, no redundant top group, fifth byte at most 0x0F) and sum to v's word. |
| VarInt.DecodeMeaning | src/util/mc_disconnect.rs:28-42 | Decoding fails exactly when none of the first five bytes ends the VarInt; otherwise the value is the group sum modulo 2^32. |
| VarInt.DecodeEncode | src/util/mc_disconnect.rs:11-42 | Decoding undoes encoding for every i32, whatever follows. |
| VarInt.EncodeDecode | src/util/mc_disconnect.rs:11-42 | A decoded VarInt is never shorter than the encoding of its value, and equal to it exactly if it is minimal. |
| VarInt.DecodeIsStable | src/util/mc_disconnect.rs:28-42 | A successful decoding is the same on every extension of the buffer. |
| McDisconnect.EncodeMcString | src/util/mc_disconnect.rs:45-50 | A reader gets the string back, and nothing else, if its length fits an i32. |
| McDisconnect.EncodeTextComponentJson | src/util/mc_disconnect.rs:100-106 | The two replacement loops escape every backslash and quotation mark once; a reader finds exactly the text in the component, if it has no control character and fits. |
| McDisconnect.TwoPassesAreOne | src/util/mc_disconnect.rs:102-102 | The two replacements, in this order, escape each backslash and quotation mark exactly once. |
| McDisconnect.ReadEscaped | src/util/mc_disconnect.rs:100-106 | A JSON string reader (section 7 of RFC 8259) gets the text back, and rejects it exactly if it has a control character. |
| McDisconnect.ReadWrittenString | src/util/mc_disconnect.rs:45-50 | A string is read back if its length fits an i32; otherwise the reader fails or stops too early. |
| McDisconnect.FitsMeansPayload | src/util/mc_disconnect.rs:119-135 | The payload stays below 2^31 bytes exactly if the message plus its escaped characters plus 17 does. |
| McDisconnect.BuildLoginDisconnect | src/util/mc_disconnect.rs:119-135 | For every protocol version, a client reads exactly the message from the packet and leaves exactly what follows, if and only if the message has no control character and fits. |
| McDisconnect.ReadWrittenDisconnect | src/util/mc_disconnect.rs:100-135 | Frame, packet id, string and JSON are read back to exactly the message, leaving exactly what follows, if and only if the message has no control character and fits. |
| McDisconnect.SendLoginDisconnect | src/util/mc_disconnect.rs:180-197 | Panics before it does anything exactly if the bytes to discard exceed `isize::MAX`, and waits without writing exactly if fewer have arrived and the client has not closed; otherwise discards exactly that many (or all there are), sends a prefix of the packet, all of it if the write is not cut off, and shuts down. |
| ParseServer.ParseHandshakeBuf | src/util/parse_server.rs:59-141 | The cursor-based parser computes the fields, errors and panics of the specification. |
| ParseServer.ExtractServerId | src/util/parse_server.rs:103-126 | Splitting, URL domain, reversing in place and taking the last part give the longest prefix of the domain without a dot, or of the address without a NUL or dot if it has no domain. |
| ParseServer.ParseProtocolVersion | src/util/mc_disconnect.rs:150-164 | The version probe reads the third VarInt. |
| ParseServer.ParseAccepts | src/util/parse_server.rs:59-141 | A buffer is accepted with a record if and only if it begins with a well-formed handshake that has this record. |
| ParseServer.ParseIsStable | src/util/parse_server.rs:42-141 | An accepted buffer gives the same record on every extension, and the version probe agrees with it. |
| ParseServer.PartialPeek | src/util/parse_server.rs:42-141 | A peek that saw only part of a handshake is never accepted; it panics exactly if it ends behind the address within the port, and is an error otherwise. |
| ParseServer.NegativeAddressLength | src/util/parse_server.rs:82-93 | A negative address length panics or is an error, depending on the cursor. |
| ParseServer.PanicsExactlyIf | src/util/parse_server.rs:59-100 | The exact set of buffers on which the parser panics. |
| ParseErrors.ErrorsExactly | src/util/parse_server.rs:59-100 | Each error is reported if and only if the buffer has the fields before the one that the error names, well-formed, and lacks that one. |
| ParseErrors.ProbeExactly | src/util/mc_disconnect.rs:150-164 | The probe reads a version if and only if the buffer begins with three VarInts of which it is the third. |
| ParseServer.ParseEncoded | src/util/parse_server.rs:59-141 | Parsing undoes the client's encoder for every version, address, port and state, whatever follows, and the packet length is the encoded length. |
| ParseServer.PacketLength | src/util/parse_server.rs:63-65 | The packet length of an accepted handshake is its length field plus the bytes of that field, and beyond what a buffer can have exactly if that sum is negative. |
| ParseServer.LengthIsNotChecked | src/util/parse_server.rs:59-100 | Whatever length a client announces, the handshake behind it is accepted with the same fields. |
| ParseServer.ServerIdIsFirstLabel | src/util/parse_server.rs:105-126 | Without a URL domain, the label is the longest prefix of the address without NUL and dot, and only that. |
| ParseServer.MarkerIsIgnored | src/util/parse_server.rs:103-108 | Whatever follows a NUL, such as the Forge marker, does not change the label. |
| Lane.LaneStepKeepsInv | src/p2p_pipe.rs:54-94 | Every step of the two pumps of a direction keeps the account of all bytes. |
| Lane.NothingIsLost | src/p2p_pipe.rs:54-94 | While both pumps run, sink, held bytes and stream together are exactly what was read from the source. |
| Lane.SinkIsPrefix | src/p2p_pipe.rs:54-94 | The sink holds a prefix of the source, and all of it once both pumps have ended cleanly. |
| Lane.LaneRefinesPipe | src/p2p_pipe.rs:54-94 | Each step of a direction is a step of a plain ordered pipe, or none. |
| P2pPipe.StepKeepsInv | src/p2p_pipe.rs:142-472 | Every step of handlers, pumps and sockets keeps the invariant that links the two ends. |
| P2pPipe.TunnelRefinesPipes | src/p2p_pipe.rs:142-472 | In every reachable state, each step is a step of one plain pipe in each direction, or none. |
| P2pPipe.TunnelDelivers | src/p2p_pipe.rs:198-472 | In every run the backend has a prefix of what the client sent from byte 0, without the preamble and only after it was dialled, and all of it when both pumps ended cleanly; likewise back. |
| P2pPipe.ForwardOkIsComplete | src/p2p_pipe.rs:142-169 | If `forward_bidi` succeeds at either end, that end's socket was read to its end into the stream, and what was in the other stream was written; that stream lacks something only if the other end's sender failed. At both ends, both directions are complete from socket to socket. |
| P2pPipe.ForwardResultMeans | src/p2p_pipe.rs:142-169 | In every run and at both ends a failed receiver alone makes the result an error; otherwise there is a result exactly if both pumps have ended, and it is success exactly if both finished; an error at an end that forwards has a fault of that end as its cause. |
| P2pPipe.EndedHandlersRelease | src/p2p_pipe.rs:198-472 | In every run a handler that ended before it forwarded lets go of its streams, which then end or are reset. |
| P2pPipe.OnlyFaultsCancel | src/p2p_pipe.rs:132-169 | In every run an end's token is cancelled if and only if one of its pumps met an I/O error or an interrupt reached it; without that none of its pumps fails. |
| HalfClose.InterruptEnds | src/p2p_pipe.rs:161-166 | From every reachable state in which an end forwards, an interrupt cancels its token and only its own, and `forward_bidi` there can then fail at once. |
| HalfClose.OtherDirectionGoesOn | src/p2p_pipe.rs:139-169 | From every reachable state in which traffic flows and no token is cancelled, either direction can end cleanly at both ends without touching the other or any token; the other then delivers whatever is still sent, and both ends succeed. |
| P2pPipe.DroppingLeavesPumps | src/p2p_pipe.rs:356-370 | Dropping a handler that forwards changes no stream, pump or token, and releases nothing. |
| HalfClose.DroppedHandlerForwardsOn | src/p2p_pipe.rs:356-370 | After the client's handler was dropped, both directions can still be completed and both ends succeed. |
| HalfClose.OpenIsReachable | src/p2p_pipe.rs:198-472 | For every request that begins with a handshake which a peek sees whole, there is a run to such a state. |
| HalfClose.SuccessCanHideLoss | src/p2p_pipe.rs:54-94 | From every such state the client's end can fail so that the server's end succeeds and the backend has exactly what was already in the stream. |
| P2pPipe.OutputIsExclusive | src/p2p_pipe.rs:215-325 | In every run the client was sent a prefix of one disconnect packet (only when it logs in and its handshake can be discarded, and then the backend is not dialled), or a prefix of the backend's output, never a mixture. |
| P2pPipe.PreambleIsValid | src/p2p_pipe.rs:460-468 | The backend is dialled only after the whole preamble was read, and what was read is the preamble. |
| P2pPipe.PeekSawEnough | src/util/parse_server.rs:42-55 | What the handler took from its peek, routing label included, is what the parser finds in everything the client has sent. |
| P2pPipe.RefusedClientReads | src/p2p_pipe.rs:215-246 | A client that got the whole packet reads the intended message exactly if the message does not quote the label or the label parsed from the handshake has no control character. |
| Refusals.FailureDecidesRefusal | src/p2p_pipe.rs:215-322 | In every run in which a step of the handler fails: if the peeked handshake has next state 2, the client is refused for exactly this failure in every continuation; any other client is never sent a byte. |
| Refusals.RefusalCanBeSent | src/p2p_pipe.rs:229-246 | Some continuation of such a run gives the client exactly the packet for that failure. |
| Refusals.RefusalHasCause | src/p2p_pipe.rs:215-322 | A client is refused for a reason only if a step of its handler failed with that reason. |
| Refusals.RoutesInOrder | src/p2p_pipe.rs:248-322 | In every run the handler's stage, and what it refused the client for, tell how many of lookup, ticket, connection and stream succeeded; nothing is forwarded before all four. |
| Refusals.EveryRefusalCanHappen | src/p2p_pipe.rs:248-322 | For every login that a peek sees whole, and every refusal, there is a run that ends with the client having its packet. |
| Refusals.PlayerIsTold | src/p2p_pipe.rs:250-312 | What the player reads in that run, word by word, for each of the six refusals. |
| Refusals.BadHandshakeCloses | src/p2p_pipe.rs:215-224 | A client whose handshake is not understood is never sent a byte, and nothing of it reaches a stream or the backend, in any continuation. |
| Refusals.BeginsExactlyIf | src/p2p_pipe.rs:307-472 | In every run the backend was dialled exactly if the server came to dial it, and an end forwards exactly if its handler got there. |
| Refusals.ServerCanGiveUp | src/p2p_pipe.rs:448-470 | As long as the server has not dialled its handler can end, and then the backend is never dialled or sent a byte. |
| P2pPipe.RefuseClient | src/p2p_pipe.rs:215-246 | Refusing a client that sent a handshake and more, for every announced length: a login that announced what it sent gets the packet at once and exactly what follows the handshake stays unread; the refusal waits exactly if more was announced than has arrived and the client has not closed, and panics exactly if the length is negative and its own bytes do not outweigh it; any other client gets nothing. |
| ProxyTraffic.WriteTask | src/util/proxy_traffic.rs:35-54 | The loop over the 4096-byte buffer does what the task's function says, to which the three laws below apply: no stale byte is sent. |
| ProxyTraffic.ReadTask | src/util/proxy_traffic.rs:17-33 | The loop over the 4096-byte buffer does what the task's function says: it writes each message whole, and one that does not fit is an error. |
| ProxyTraffic.WriteTaskConserves | src/util/proxy_traffic.rs:35-54 | Unless a write failed, the messages sent are exactly the bytes read, each of 1 to 4096 bytes, wherever the task was cancelled. |
| ProxyTraffic.WriteTaskLosesOneChunk | src/util/proxy_traffic.rs:35-54 | What is left unread is the end of the input, and a failed write loses at most its one chunk of 4096 bytes. |
| ProxyTraffic.WriteTaskEnds | src/util/proxy_traffic.rs:40-51 | The task goes on while rounds read something and write all of it; it fails exactly if the first other round fails to read or to write all, and succeeds exactly if that one is cancelled or reads nothing. |
| ProxyTraffic.ReadTaskConserves | src/util/proxy_traffic.rs:17-33 | Unless a write failed, the bytes written are whole messages, in order, wherever the task was cancelled. |
| ProxyTraffic.ReadTaskEnds | src/util/proxy_traffic.rs:20-31 | The task succeeds exactly if it is cancelled, fails exactly at a failed read, a message above 4096 bytes or an incomplete write, and has written the messages before that and what got through of that one. |
| ProxyPair.PairDelivers | src/util/proxy_traffic.rs:14-66 | In every run of two ends, sink, held chunks and messages in flight are what was read from the source, every message fits the far buffer, and a task that ended without error holds nothing back. |
| ProxyPair.EndStopsAsAWhole | src/util/proxy_traffic.rs:14-66 | From every reachable state in which an end is cancelled or one of its tasks has returned, both of its tasks can end, and what the receiving one holds is still written. |
| ProxyPair.OnlyEofCuts | src/util/proxy_traffic.rs:35-63 | In every run without an error or outside cancellation at an end, its receiving task returns only after its sending task read and sent everything up to a clean end of file. |
| ProxyPair.EofCutsTheOtherDirection | src/util/proxy_traffic.rs:43-63 | From every reachable state in which all of an end's input was read, there is an error-free continuation after which messages not yet delivered, and all later ones, never are, whatever happens. |
| ProxyPair.CutExactlyAfterEof | src/util/proxy_traffic.rs:35-63 | In an undisturbed run, what comes in at an end can be cut off if and only if all that goes out has been read, end of file included. |
| ProxyPair.AnyAnswerCanBeLost | src/util/proxy_traffic.rs:43-63 | For an answer of any length there is an error-free run in which all of it was sent over the channel and none of it ever reaches the client. |
| ProxyPair.WriteTaskMoves | src/util/proxy_traffic.rs:35-54 | Every run of the writing task is a sequence of the pair's moves, with the same result. |
| ProxyPair.ReadTaskMoves | src/util/proxy_traffic.rs:17-33 | Every run of the reading task is a sequence of the pair's moves, with the same result. |
| ResponseManager.ResponseManager.constructor | src/util/response_manager.rs:11-15 | Starts without waiters. |
| ResponseManager.ResponseManager.WaitForResponse | src/util/response_manager.rs:18-22 | Adds a fresh waiter and supersedes an earlier one with the same id, and changes nothing else. |
| ResponseManager.ResponseManager.HandleResponse | src/util/response_manager.rs:25-29 | Delivers to the pending waiter of the id, or discards if its receiver is gone, and changes nothing else. |
| ResponseManager.ReplayIsScan | src/util/response_manager.rs:18-29 | After any log of registrations, responses and drops, each waiter's outcome is decided by the first later event on its id, and every pending waiter is in the table. |
| ResponseManager.TableIsPending | src/util/response_manager.rs:18-29 | Whoever is in the table is the newest registration of its id, and pending. |
| ResponseManager.Conservation | src/util/response_manager.rs:18-29 | Waiters registered are those in the table plus those answered plus those superseded. |
| Session.Session.HandlePacket | src/core/p2p/session.rs:64-88 | Offers go to the queue of their id, replies to the waiter of their number, nothing else changes; a full queue waits and a dropped listener fails. |
| Session.Session.Listener | src/core/p2p/session.rs:142-153 | Installs a fresh queue for the id in place of an earlier one, or changes nothing if the registration cannot be sent. |
| Session.Session.OnMessage | src/core/p2p/session.rs:113-131 | One round of the reader: a malformed text, a close frame or a failed packet stops it. |
| Session.Session.ReaderTask | src/core/p2p/session.rs:110-135 | The reader handles messages in order until it is stopped or has to wait. |
| Session.PeerListener.Receive | src/core/p2p/session.rs:30-34 | Takes the oldest waiting offer. |
| Session.AliveExactlyIf | src/core/p2p/session.rs:64-135 | In every run the reader is alive if and only if nothing on the stream stopped it and no offer came for an id whose last installed listener had been dropped. |
| Session.QueueHistory | src/core/p2p/session.rs:64-153 | In every run, what the current listener of an id received, then what still waits, is every offer for that id put into a queue since it was installed, in order; no queue exceeds 100 or holds another id's offer. |
| SessionLog.LogTellsQueues | src/core/p2p/session.rs:64-153 | In every run, what the current listener of an id received and what waits for it are the offers that the log of events says found room since it was installed, and it is open unless the log says that it was dropped. |
| SessionLog.HandlingIs | src/core/p2p/session.rs:64-88 | Handling fails exactly for an offer whose last listener was dropped, and waits exactly for an offer whose listener has 100 offers waiting; an offer that nobody listens for, a reply and any other packet do neither. |
| SessionLog.ReaderTakes | src/core/p2p/session.rs:110-135 | The reader takes every message up to the first that it has to wait for or the first after it was stopped; pings, other messages and receive errors do not stop it. |
| SessionLog.LogTellsWaiters | src/core/p2p/session.rs:77-82 | In every run the table of waiters is the one that saw the registrations, the drops and exactly the replies that came while the reader was alive. |
| Signalling.ActKeepsInv | src/core/p2p/session.rs:64-180 | Every step of sessions, relay and acceptors keeps the correlation invariant. |
| Signalling.ReplyMatchesOffer | src/core/p2p/session.rs:169-180 | In every run, what `offer` returns has its number and was made by accepting an offer that was sent; if the number is unique, this very offer, with id and to swapped. |
| Signalling.AnswerIsTheAcceptors | src/core/p2p/peer_connection.rs:145-153 | In every run what a call returns was made by an accept of that run: it has the acceptor's description, the number of the accepted offer, and its peers swapped; if the number is unique, the offer is the call's own. |
| Signalling.ExchangeSucceeds | src/core/p2p/session.rs:169-180 | For every offer and description there is a run in which the call returns the reply with that description. |
| Signalling.DroppedCallReturnsNothing | src/core/p2p/session.rs:169-180 | A call that was dropped before it was answered never returns anything. |
| Signalling.NoReplyOutrunsItsWaiter | src/core/p2p/session.rs:171-179 | Whenever a reply is anywhere on the wire, a call with its number was registered and sent, and is pending exactly while the table holds it. |
| Signalling.FirstCopyAnswers | src/util/response_manager.rs:25-29 | The first copy that arrives answers the waiting call; in every continuation without another call of that number at the session, the call keeps the answer and no later reply with the number changes anything. |
| Signalling.AnswerIsFinal | src/core/p2p/session.rs:177-179 | A call is answered at most once, whatever happens later. |
| Signalling.RepeatedNumberConfuses | src/core/p2p/peer_connection.rs:78-88 | For any two offers with the same number there is a run in which one call returns the reply to the other. |
| Signalling.StoppedReaderAnswersNothing | src/core/p2p/session.rs:110-135 | Once a session's reader has stopped, none of its open calls is ever answered. |
| Dumbpipe.CancelReaches | src/dumbpipe.rs:113-116 | Cancelling a token cancels exactly the tokens below it in the tree. |
| Dumbpipe.CancelledExactlyIf | src/dumbpipe.rs:97-132 | In every run over any token tree, the pumps of a connection are cancelled exactly if one of them had an I/O error or the accept loop's token is cancelled; the program's own tokens stay as the program made them. |
| Dumbpipe.AcceptsExactlyIf | src/dumbpipe.rs:221-245 | In every run an accept loop still accepts if and only if it has not noticed that the program cancelled its token or one above, and, for `listen_tcp`, the endpoint has not closed and no attempt has failed; the pumps of connections play no part. |
| Dumbpipe.EveryConnectionIsAccepted | src/dumbpipe.rs:221-245 | In every run each connection that comes before the loop was ended gets a handler, and no other. |
| Dumbpipe.LogTellsPumps | src/dumbpipe.rs:97-132 | In every run each pump of each connection is where the log says: it ends with its first end of file or I/O error, or when it notices that the loop's token was cancelled or a pump of its own connection failed. |
| Dumbpipe.CancelledPumpsEnd | src/dumbpipe.rs:35-69 | Both pumps of a connection whose token is cancelled can end; otherwise there is nothing to notice. |
| Dumbpipe.FailedAttempt | src/dumbpipe.rs:340-354 | One attempt that cannot be accepted ends `listen_tcp`: no further connection is ever accepted. It makes no difference to `connect_tcp`. |
| Dumbpipe.OthersDoNotMatter | src/dumbpipe.rs:219-245 | A connection, its token, the program's tokens and the accept loop end up as if the pumps of all other connections had done nothing. |
| Dumbpipe.CancelledForGood | src/dumbpipe.rs:97-132 | A cancelled token, by itself or through an ancestor, never becomes live again. |
| Dht.LookupIrohMapping | src/dht.rs:90-109 | Returns the first text record that decodes, if any. |
| Dht.FirstTicketIs | src/dht.rs:94-105 | A ticket is found if and only if it is in a text record before which no text decodes. |
| Dht.NodesNeverRegress | src/dht.rs:43-84 | Over any interleaving of publishing, republishing and cancelling, no node's sequence number decreases, and every node holds what some publisher signed. |
| Dht.NodeHoldsLatest | src/dht.rs:43-84 | In every run a node holds a record if and only if a publication reached it, and then the latest that did: a first one counts whether or not it succeeds as a whole, a repeated one from a first that succeeded until the loop notices its cancellation. |
| Dht.LookupFindsLatest | src/dht.rs:43-105 | A lookup that reaches a node which ever held a publisher's record yields that record or a later one; the latest publisher's ticket wins, whoever republishes. |

## Left out

- The two handlers and the pumps of src/p2p_pipe.rs and src/dumbpipe.rs are step systems on values, not classes: what matters there is the interleaving of tasks. The model does not capture how tokio schedules them.
- McDisconnect.ReadEscaped: the reader has no `\u` escapes, which the program never writes.
- ParseServer.ParseEncoded: assumes that the handshake's body is shorter than 2^31 bytes and the buffer no longer than a Rust slice can be; the protocol caps an address at 255 characters.
- P2pPipe.TunnelRefinesPipes: the discarding of the handshake before a disconnect is not a step of the tunnel; P2pPipe.RefuseClient and McDisconnect.SendLoginDisconnect have it.
- P2pPipe.RefusedClientReads: assumes that neither lossy decoding nor the URL library makes text more than a thousand times as long.
- McDisconnect.SendLoginDisconnect: an allocation that fails for lack of memory aborts the process; only the panic above `isize::MAX` is modelled. A read error on the client's socket counts as its end.
- ProxyPair.WriteTaskMoves: assumes that a read of a TCP stream yields no bytes only at the end of file.
- Session.Session.HandlePacket: the read lock that it holds while it waits for room, which makes a concurrent `listener` wait too, is not modelled; the runs of the model include more interleavings than the program has.
- Session.Session.Listener: offers that arrive between the registration and the installation of the queue are not modelled.
- Session.QueueHistory: offers that still wait when a listener is dropped stay in the model's queue, where nobody can receive them.
- Signalling.ReplyMatchesOffer: how the relay routes by registered id is not modelled; it may deliver anywhere.
- Dht.NodesNeverRegress: expiry of records is not modelled, and the timestamps of the publishers are assumed distinct.
- ProxyPair.PairDelivers: the value that `proxy_traffic` returns is not modelled; it polls a task handle that has already completed.
- Liveness: nothing says that a task that can step eventually does.
- Accepting data channels by label and the order of ICE and SDP steps in src/core/p2p/peer_connection.rs.
- Sockets, TLS, QUIC, WebRTC and DHT transport, certificates, key derivation, archives, NBT, the process launcher, the `cancellable` macro and the command line.
