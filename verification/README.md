# Verified models of optimusprime's protocol and state code

Dafny models of seven parts of the server framework that carry state, arithmetic or an encoding, with
proofs of what they promise: the WebSocket frame codec and connection, the parameter binder, the token
bucket, the TCP packet framing and client pool, the timer scheduler, the version 1 UUID generator with
its text form, and the width-aware text and table layout.

`dafny verify dfyconfig.toml` checks everything. Code that updates state in place is a class or a method
with a loop, proved against a function; the functions carry the laws. Code that runs in several
goroutines is a state machine whose steps are the critical sections, and the laws hold in every state of
every interleaving; the classes `TcpClient.Client` and `TimerScheduler.Scheduler` run the program's own
loops against it, with arbitrary steps of the other goroutines in between.

| files | part |
|---|---|
| `Numbers`, `Bytes`, `Streams`, `Decimal` | quotients and remainders, bytes, big-endian numbers, a byte source that arrives in chunks of any size, decimal text |
| `WsFrames`, `WsStream`, `WsConn`, `WsEndToEnd` | frame codec, meaning of a stream, the reading and writing methods, whole runs |
| `Binder`, `BinderLaws`, `BinderRoundTrip`, `BinderLoops`, `BinderTexts` | binding and unbinding as functions, locality, the round trip, the loops over maps, keys and texts spelled out |
| `TokenBucket` | the bucket, bounds over whole runs, the search for an increment |
| `TcpPackets`, `TcpPool`, `TcpClient` | length-prefixed packets, the pool as a state machine, the client's methods |
| `Timers`, `TimerScheduler` | the scheduler as a state machine, its methods |
| `Uuid`, `UuidText` | generator and packing, text form |
| `TextLayout`, `Tables` | wrapping, truncation, filling, aligned tables |

## Where the code does not do what it seems to promise

For each of these the lemmas named give the exact condition, proved necessary and sufficient, and most
also a concrete input.

- An opcode of 16 or more spills into the flag bits of the first byte; flags and opcode are read back
  exactly when it is below 16 (`WsFrames.FirstByteRoundTrip`).
- End of file leaves the stream at a frame boundary exactly when nothing was left to read or the frame that
  ended the reading has no payload (`WsStream.StoppedExactly`; every reading method of `WsConn.Conn` and
  `WsEndToEnd.MixedCalls` promise it). A Close or a masking violation stops behind that frame's header, so
  with a payload reading on takes it for a frame (`WsStream.StoppedBehindHeader`,
  `WsStream.PayloadOfCloseReadAsFrame`); a header that is cut off is consumed.
- A current frame may be held with nothing left to read in it: the position is short of the next boundary
  exactly when payload is left (`WsStream.StrictlyInside`, `WsConn.Conn.ReadCurrent`), and opening an empty
  frame leaves none (`WsStream.HeldAtItsEnd`).
- A data frame cut off by the end of the stream behind its header is delivered without an error, as a
  message of the bytes that arrived (`WsStream.CutOff`); it is whole exactly when the stream reaches as far
  as the header says (`WsStream.WholeExactly`). One byte of two arrives as a message (`WsStream.ShortMessage`).
- `Bind` undoes `Unbind` exactly when the last element of every slice prints something
  (`BinderRoundTrip.BindUndoesUnbind`); what it returns otherwise is stated too. A slice that ends in an
  empty slice loses it (`BinderRoundTrip.LosesLastElement`).
- After a request that found the bucket full and went into debt while the refill tick was behind, a later
  request may be released earlier: `TokenBucket.OrderOverRuns` says exactly when, and
  `TokenBucket.Overtaken` is such a run.
- The windows from a charging request on may use more than one capacity exactly when it found the bucket
  full with the refill tick behind (`TokenBucket.WindowExactly`). Only the first charging request can
  (`TokenBucket.LaterWindow`); `TokenBucket.TwoCapacitiesAtOnce` is such a run.
- The search for an increment dereferences a nil bucket, at its first increment, exactly for a positive rate
  above one unit a nanosecond or with a capacity that is not positive (`TokenBucket.SearchAtRate`), as at two
  units a nanosecond (`TokenBucket.TwoEachNanosecond`).
- A TCP packet of 2^32 bytes or more does not come back (`TcpPackets.FitsExactly`).
- A TCP stream cut off right behind the head of a packet reports the plain end of file that a stream cut off
  between packets reports, and no other cut does (`TcpPackets.CutLooksEnded`, `TcpPackets.Reader.ReadPacket`).
- A client request loses an open connection when `SetDeadline` fails on a reused connection and a pass of
  the loop is left; a request without response also when keep-alive cannot be set. It loses one in no
  other case (`TcpPool.ReturnedRequest`); each of the two has its run (`TcpPool.DeadlineLosesIt`,
  `TcpPool.LosesItsConnection`).
- The task pool holds exactly the tasks inserted and not deleted, in every state of a run, if and only if
  no insertion of the run meets an occupied id (`Timers.PoolExactly`). Ids are int32 and wrap around, so that
  one can. A singleton type then still has at most one task in the pool (`Timers.AlwaysOnePooled`). It has at
  most one task not yet deleted, or not yet finished, in every state if and only if no creation of it begins
  while such a task has lost its pool entry (`Timers.OneLeftExactly`); for unfinished tasks this is also when
  every state rules out two active runs before the next creation (`Timers.OneRunExactly`). A run with two:
  `Timers.WrapBreaksSingleton`.
- `UnmarshalText` panics exactly on texts of 32 bytes or more that break off after some whole groups
  (`UuidText.PanicsExactly`), as a brace and 31 digits do (`UuidText.BracePanics`).
- `wrap` does not fit, and does not settle, exactly when a character is wider than the line
  (`TextLayout.WrapLaws`, `TextLayout.TooWide`).
- A table is misaligned with a field listed twice, with a field that has no column, with a title wider
  than its column, or with dashes but no fields, and in no other case (`Tables.AlignedExactly`,
  `Tables.Misaligned`); printing panics exactly for a Markdown table without rows that has a footer and a
  field with neither a column nor a value in it (`Tables.Table.Print`, `Tables.FooterOnly`).

## Model

| member | source | states |
|---|---|---|
| WsFrames.FirstByteRoundTrip | net/websocket/hybi.go:131-136 | flags and opcode written into the first byte are read back if and only if the opcode has four bits |
| WsFrames.LengthRoundTrip | net/websocket/hybi.go:147-165 | each of the three length forms is read back as the length it was written for, up to 2^63-1 |
| WsFrames.HeaderRoundTrip | net/websocket/hybi.go:120-181 | from an encoded header followed by anything the reader recovers flags, opcode, length, key and the header's size |
| WsFrames.PrefixCode | net/websocket/hybi.go:190-245 | of two encoded frames one is a prefix of the other only if they are the same frame |
| WsFrames.WriterIsShortest | net/websocket/hybi.go:209-226 | no header the reader accepts for a length is shorter than the writer's, and no length it reads exceeds 2^63-1 on any input |
| WsFrames.HeaderOnWire | net/websocket/hybi.go:190-231 | the header on the wire bit by bit: FIN and reserved bits, opcode, mask bit, the length in 7 bits or in 2 or 8 bytes, most significant first, and the key |
| WsFrames.PayloadOnWire | net/websocket/hybi.go:232-243 | behind the header byte i of the message is XORed with byte i mod 4 of the key, and is itself without a key |
| WsFrames.HeaderFormat | net/websocket/hybi.go:120-176 | what the reader takes the same bits to say, any of the three lengths, the top bit of an eight-byte one ignored; a header is there if and only if the stream is long enough for it |
| WsFrames.MaskTwice | net/websocket/hybi.go:233-236 | masking, the XOR with the key's bytes in turn, is undone at any position by masking again |
| WsFrames.MaskSplit | net/websocket/hybi.go:87-92 | masking goes on across partial reads: two parts masked at running positions are the whole masked once |
| WsStream.TurnKeeps | net/websocket/hybi.go:270-309 | one turn of the reading loop loses no message and no reply, and ends only when none is left |
| WsStream.FrontByOpcode | net/websocket/hybi.go:270-309 | what the first frame of a stream does, by its mask and the number of its opcode: a Close of status 1002 for a frame masked wrongly, the end for 8, a pong (10) of the first 125 bytes for 9, nothing for 10, a message for anything else, under the opcode of the latest 1 or 2 for 0 |
| WsStream.PayloadBytes | net/websocket/hybi.go:82-94 | byte j of a payload is that of the stream XORed with byte j mod 4 of the key, or itself without one, as far as the stream reaches |
| WsStream.FrameReadBack | net/websocket/hybi.go:120-245 | an encoded frame at the front of a stream is read back whole and reading goes on right behind it |
| WsStream.StreamOfFrames | net/websocket/websocket.go:304-332 | frames written back to back deliver exactly the messages before the first Close or violation, and provoke exactly the replies, a pong with at most 125 bytes for each ping |
| WsStream.ControlInvisible | net/websocket/hybi.go:294-306 | pings and pongs between data frames change nothing in what is delivered |
| WsStream.ContinuationOpcode | net/websocket/hybi.go:288-291 | a continuation frame is delivered under the opcode of the latest text or binary frame before it |
| WsStream.InsideMoves | net/websocket/hybi.go:177-179 | consuming payload bytes keeps position and mask position in step inside the frame, and consuming all arrives at a boundary |
| WsStream.EndOfFrame | net/websocket/hybi.go:177-179 | where the payload limit ends, the next frame starts |
| WsStream.StoppedBehindHeader | net/websocket/hybi.go:271-293 | after a Close or a masking violation the stream is at a frame boundary if and only if that frame has no payload |
| WsStream.StoppedExactly | net/websocket/hybi.go:120-293 | where reading from a boundary ends, behind the header or with a cut-off header consumed, the stream is at a boundary if and only if nothing was left or the frame has no payload |
| WsStream.PayloadOfCloseReadAsFrame | net/websocket/hybi.go:292-293 | a Close frame whose payload, read on, becomes a text message |
| WsStream.StrictlyInside | net/websocket/hybi.go:177-179 | behind the header of a frame the position is short of the next boundary if and only if payload bytes are left to read |
| WsStream.HeldAtItsEnd | net/websocket/websocket.go:175-195 | an empty text frame is opened as the current frame with nothing left in it |
| WsStream.CutOff | net/websocket/websocket.go:314-331 | a data frame cut off anywhere is delivered as a message of the payload bytes that arrived, once its header is complete, and not at all before |
| WsStream.CutStream | net/websocket/websocket.go:304-332 | frames written back to back and cut off anywhere deliver exactly the messages, and provoke exactly the replies, of the whole frames and of the part of the last one that arrived |
| WsStream.WholeExactly | net/websocket/hybi.go:177-179 | a payload has the announced length if and only if the stream reaches that far |
| WsStream.ShortMessage | net/websocket/websocket.go:314-331 | a text frame of two bytes of which one arrived is delivered as a message of one byte |
| WsConn.FrameReader.Read | net/websocket/hybi.go:82-94 | a read returns the next payload bytes in the caller's buffer, for any chunk size, and touches nothing behind them; byte j is that of the stream XORed with byte (pos + j) mod 4 of the key, or itself without one |
| WsConn.FrameReader.ReadInside | net/websocket/hybi.go:82-94 | such a read keeps position and mask position in step inside the frame; at its end it stands on a boundary; short of it exactly when payload is left |
| WsConn.FrameReader.Unmask | net/websocket/hybi.go:87-92 | in place, byte j is XORed with byte (pos + j) mod 4 of the key, and pos advances by as many bytes |
| WsConn.FrameReader.ReadFull | net/websocket/hybi.go:295-299 | stops short of the limit only at the end of the payload |
| WsConn.FrameReader.ReadAll | net/websocket/websocket.go:327-327 | returns the rest of the payload and leaves the stream at the frame's end |
| WsConn.ReadLength | net/websocket/hybi.go:146-165 | the accumulated length is the big-endian value with the top bit of an eight-byte length cleared |
| WsConn.NewFrameReader | net/websocket/hybi.go:120-181 | reads exactly one header byte by byte, or meets end of file |
| WsConn.FlagsAndOpcode | net/websocket/hybi.go:191-202 | the loop over the reserved bits builds the first byte |
| WsConn.MaskAndLength | net/websocket/hybi.go:204-226 | second byte and length bytes are those of the header encoding |
| WsConn.MaskedCopy | net/websocket/hybi.go:233-236 | a fresh copy of which byte i is that of the message XORed with byte i mod 4 of the key |
| WsConn.Conn.WriteFrame | net/websocket/hybi.go:190-245 | exactly one whole encoded frame is appended, its payload bytes XORed with byte i mod 4 of the key if there is one; nothing for a key that is not four bytes long |
| WsConn.Conn.Send | net/websocket/websocket.go:287-301 | one frame, final, without reserved bits, and masked with the next random key exactly by a client, is appended to the wire and to what was sent |
| WsConn.Conn.Write | net/websocket/websocket.go:201-214 | the same, under the connection's payload type |
| WsConn.Conn.HandleControl | net/websocket/hybi.go:294-306 | a control frame is consumed to its end and a ping is answered with its first 125 bytes |
| WsConn.Conn.HandleFrame | net/websocket/hybi.go:270-309 | masking rule with the Close it writes, continuation, Close, ping and pong, and data, each with its effect on stream, replies and remembered opcode |
| WsConn.Conn.NextFrame | net/websocket/websocket.go:175-187 | one jump to `again` is one turn of the specification, consumes input, and keeps alignment; at end of file it says exactly when the stream is at a boundary |
| WsConn.Conn.ReadCurrent | net/websocket/websocket.go:188-195 | reading from the current frame takes the first pending bytes and keeps alignment; a frame still held is short of its end if and only if bytes are left in it |
| WsConn.Conn.Read | net/websocket/websocket.go:171-197 | returns the next bytes of the payload stream, at least one unless the buffer is empty, or end of file, then with none left and every reply out; keeps alignment, and at end of file is at a boundary exactly when the stream ended cleanly; terminates |
| WsConn.Conn.Receive | net/websocket/websocket.go:304-332 | returns the next whole message, skipping the rest of a partly read frame, or end of file with no message left; alignment as for Read; terminates |
| WsConn.Conn.ReceiveNext | net/websocket/websocket.go:314-331 | from between two frames the loop returns the next whole message, or end of file with none left; alignment as for Read |
| WsConn.Conn.DropCurrent | net/websocket/websocket.go:307-313 | after a partial Read exactly the rest of that frame is skipped |
| WsEndToEnd.ReceiveUntilEnd | net/websocket/websocket.go:304-332 | repeated Receive returns every message of the stream in order, then end of file |
| WsEndToEnd.ReadWithSizes | net/websocket/websocket.go:171-197 | for every sequence of buffer sizes the bytes read concatenate to the payload stream |
| WsEndToEnd.MixedCalls | net/websocket/websocket.go:171-332 | any mix of Read and Receive keeps position and mask position aligned with the frames; once a call has met end of file the stream is at a boundary if and only if it ended cleanly |
| WsEndToEnd.WireIsWholeFrames | net/websocket/hybi.go:311-335 | in every interleaving of writers under the write lock the bytes on the wire are a prefix of whole frames in lock order, and exactly those whenever the lock is free |
| WsEndToEnd.PeerReceives | net/websocket/websocket.go:201-332 | in every state of any such run, and wherever the bytes passed on are cut off, the peer's repeated Receive returns exactly the data payloads and types before the first Close that have arrived, in order, in either direction; all of them when the lock is free and nothing is cut off |
| WsEndToEnd.PeerReads | net/websocket/websocket.go:171-214 | with Read and buffers of any sizes the peer takes, in order, the payload bytes of the data frames before the first Close that have arrived, all of them once it meets end of file |
| WsEndToEnd.EmptyInvisible | net/websocket/websocket.go:188-195 | data frames without payload change no byte of what is read |
| WsEndToEnd.CutsInvisible | net/websocket/websocket.go:188-195 | nor does cutting a data frame's payload into two frames |
| Binder.TextRoundTrip | controller/binder.go:81-156 | every int, uint, bool and string of its kind is read back from the text it is printed as |
| Decimal.IntRoundTrip | controller/binder.go:86-106 | decimal text of a 64-bit integer parses to the integer |
| Decimal.PrintedNumber | controller/binder.go:95-116 | %d prints the digits that stand for the number by their places, without a leading zero, behind a minus sign for a negative one |
| Decimal.CanonicalExactly | controller/binder.go:95-116 | digits are what their number is printed as if and only if they have no needless zero in front |
| Decimal.NumberTexts | controller/binder.go:86-105 | strconv takes exactly a sign or none and digits for a number, the one they stand for by their places; what is out of range is an error for ParseInt and ParseUint and the nearest int for Atoi |
| BinderTexts.FalseTexts | controller/binder.go:542-550 | a text is false if and only if it is one of the six words, letters in either case, between spaces |
| BinderTexts.NumberFromText | controller/binder.go:82-113 | a number is cut to the bits of its kind: the one in range that differs by a multiple of 2^bits; 0 for what is no number |
| BinderTexts.FirstValue | controller/binder.go:51-59 | a scalar is bound to the first value under its name, and without one to what an empty text stands for |
| BinderTexts.IndexExactly | controller/binder.go:223-229 | no index without a closing bracket or with nothing before it, otherwise that of the text between, 0 for what is no number; the element's name ends at the bracket |
| BinderTexts.LooseValue | controller/binder.go:241-249 | a value without an index is bound by itself: to what its text stands for if the elements are scalars, to zero if not |
| BinderTexts.PrintedExactly | controller/binder.go:289-350 | which keys a value is printed under, with which texts: name, name[i], name.field and name[key] |
| BinderTexts.EntriesExactly | controller/binder.go:437-443 | a map has an entry for a key if and only if a parameter that begins with name[ and ends in ] has a text in between that stands for it, with the first value of such a parameter |
| BinderTexts.DocumentedRequest | controller/binder.go:25-44 | the request in the documentation of Binder binds to the four values given there |
| BinderLaws.ItemKey | controller/binder.go:218-239 | a key under element i of a slice is recognised as index i and cut to that element's name |
| BinderLaws.MemberKey | controller/binder.go:308-316 | a key under a field is recognised as that field's |
| BinderLaws.EntryName | controller/binder.go:437-441 | the key of a map entry is recognised and gives back the text between the outer brackets, whatever it is |
| BinderLaws.BindLocal | controller/binder.go:458-463 | binding a name depends only on the keys equal to it or extending it with a dot or bracket |
| BinderLaws.BindNothing | controller/binder.go:455-463 | a name without keys is bound to the zero value of its type |
| BinderRoundTrip.NormalIsSame | controller/binder.go:289-294 | what printing loses is nothing exactly when the last element of every slice prints something |
| BinderRoundTrip.FlatKeys | controller/binder.go:473-481 | printing a value writes only keys that belong to its name |
| BinderRoundTrip.EmitsKey | controller/binder.go:473-481 | a value is printed under some key exactly when it is a scalar, has a map entry, or has an element or field that is printed |
| BinderRoundTrip.RoundTrip | controller/binder.go:210-463 | binding parameters that contain a printed value returns it less what printing loses, whatever else they contain, and independently of key order |
| BinderRoundTrip.BindsToNormal | controller/binder.go:455-481 | Bind after Unbind returns the value less the silent elements at the end of each slice |
| BinderRoundTrip.BindUndoesUnbind | controller/binder.go:455-481 | Bind returns the printed value if and only if the last element of each of its slices prints something |
| BinderRoundTrip.LosesLastElement | controller/binder.go:289-294 | a slice of slices whose last element is empty comes back without it |
| BinderRoundTrip.SeveralArguments | controller/binder.go:455-481 | several arguments printed into one map each bind back |
| BinderLoops.Unbind | controller/binder.go:473-481 | adds to the output exactly the value's flat keys, later ones winning |
| BinderLoops.UnbindSlice | controller/binder.go:289-294 | adds the keys of element i under name[i] for every i |
| BinderLoops.UnbindStruct | controller/binder.go:338-350 | adds the keys of every field under name.field |
| BinderLoops.UnbindMap | controller/binder.go:447-453 | adds one key per entry, in whatever order the map is ranged over |
| BinderLoops.Bind | controller/binder.go:458-463 | for every key order the result is the specified value when the parameters leave order no say, as they do for every scalar (`BinderTexts.FirstValue`, `BinderTexts.FalseTexts`, `BinderTexts.NumberFromText`) |
| BinderLoops.ProcessElement | controller/binder.go:218-258 | one parameter adds its indexed element, its unindexed values, or nothing |
| BinderLoops.Collect | controller/binder.go:210-265 | in any order of the parameters: the greatest index is that of the keys, and as many unindexed values are collected as the keys without an index have together |
| BinderLoops.Place | controller/binder.go:267-276 | length is greatest index + 1 + unindexed values; indexed values stand in their places, gaps are zero, the rest follow |
| BinderLoops.BindSlice | controller/binder.go:210-277 | for every key order the length is greatest index + 1 + unindexed values, unused places are zero, and every other place holds what one of the parameters with its index is bound to; the unindexed values follow in order when one parameter gives them; the same slice for every order when moreover no index has two spellings |
| BinderLoops.BindStruct | controller/binder.go:296-336 | each field for itself is the same for every key order in which the order has no say in that field |
| BinderLoops.BindMap | controller/binder.go:420-445 | for every key order the entries have exactly the keys the parameters spell, each with the value of one of its spellings; the same map for every order when no two keys have the same value |
| BinderLoops.PrintAndBind | controller/binder.go:210-481 | printing and binding in any order gives the value back if and only if it is faithful |
| TokenBucket.Bucket.Adjust | net/ratelimiter/bucket.go:107-118 | one increment for every tick gone by since the refill tick, up to the capacity; a full bucket keeps its units and its stale refill tick |
| TokenBucket.Bucket.Cal | net/ratelimiter/bucket.go:84-105 | no wait without debt, so none for a request within the capacity that the refill covers; in debt it waits until the start of its release tick E, in ((E-c-1)*interval, (E-c)*interval] for current tick c |
| TokenBucket.NewBucket | net/ratelimiter/bucket.go:53-64 | a full bucket, or none for a non-positive argument |
| TokenBucket.RunKeeps | net/ratelimiter/bucket.go:84-118 | in every run never more than the capacity is available and the refill tick is not ahead of the clock |
| TokenBucket.ChargedPlusAvailable | net/ratelimiter/bucket.go:84-118 | units charged plus units available never exceed the capacity plus one increment per refilled tick |
| TokenBucket.TotalBound | net/ratelimiter/bucket.go:84-118 | the units charged up to and including a request are below capacity + (E+1)*increment, E its release tick |
| TokenBucket.ReleasedBound | net/ratelimiter/bucket.go:84-118 | the units released by tick T are below capacity + (T+1)*increment |
| TokenBucket.WindowBound | net/ratelimiter/bucket.go:84-118 | the units charged in a window are below 2*capacity + (E_j+1-c_i)*increment, and below one capacity less unless its first request found the bucket full with the refill tick behind |
| TokenBucket.WindowExactly | net/ratelimiter/bucket.go:84-118 | however a run goes on, every window from a charging request on is below capacity + (E_j+1-c_i)*increment, if and only if that request did not find the bucket full with the refill tick behind |
| TokenBucket.NeverFullAgain | net/ratelimiter/bucket.go:84-118 | after the first charging request the bucket is never full again |
| TokenBucket.LaterWindow | net/ratelimiter/bucket.go:84-118 | no request after the first charging one finds the bucket full, so every window after its own stays within one capacity |
| TokenBucket.TwoCapacitiesAtOnce | net/ratelimiter/bucket.go:107-111 | two capacities released in one tick after the bucket stood full |
| TokenBucket.StretchExactly | net/ratelimiter/bucket.go:84-118 | while the bucket does not fill, every tick counts: a request in debt is released at the one tick E with avail_i + (E-t_i)*increment <= charged < avail_i + (E+1-t_i)*increment, for the units charged since request i |
| TokenBucket.ReleasedExactly | net/ratelimiter/bucket.go:84-118 | in every run a request in debt is released at the one tick given by the units charged since the bucket was last filled and its capacity, not a tick later or earlier |
| TokenBucket.ReleaseOrder | net/ratelimiter/bucket.go:90-118 | the next charging request, whatever it is, is not released earlier, if and only if the request is not overtakable; never after one that left the refill tick at its own tick |
| TokenBucket.OrderOverRuns | net/ratelimiter/bucket.go:84-118 | however a run goes on, no later request is released before a charging one, if and only if that one is not overtakable where it stands |
| TokenBucket.ReleasedInOrder | net/ratelimiter/bucket.go:84-118 | within a run, after a charging request that is not overtakable every later one is released no earlier |
| TokenBucket.Overtaken | net/ratelimiter/bucket.go:107-111 | a run in which a request of thirty units is released at tick 120 and the next one at tick 100 |
| TokenBucket.ATenthMore | net/ratelimiter/bucket.go:66-72 | nextIncrement is one more below ten and eleven tenths rounded down from there on |
| TokenBucket.TenStepsDouble | net/ratelimiter/bucket.go:66-72 | ten steps of nextIncrement at least double the increment; nextDecrement is the same function |
| TokenBucket.SearchIncrement | net/ratelimiter/bucket.go:38-51 | for any floating-point part the search ends at the first iterate it does not pass, after at most 510 passed ones: with its bucket when the margin test accepts it, with a nil dereference when it has no bucket, or with nothing when all up to 2^50 are passed |
| TokenBucket.SearchAtRate | net/ratelimiter/bucket.go:38-51 | in unrounded arithmetic a nil dereference, then at the first increment, if and only if the rate is positive and above 1e9 or the capacity is not positive; nothing for a negative rate |
| TokenBucket.TwoEachNanosecond | net/ratelimiter/bucket.go:40-46 | at a rate of 2e9 a second the first interval is cut to zero and the search ends in the nil dereference |
| TcpPackets.PacketsRoundTrip | net/tcp_reader.go:25-67 | every sequence of packets shorter than 2^32 bytes is read back |
| TcpPackets.PacketOnWire | net/tcp_writer.go:20-41 | four bytes of length modulo 2^32, most significant first, and then the packet |
| TcpPackets.FirstPacket | net/tcp_reader.go:25-67 | the first packet of a stream is as many bytes behind the first four as these say, if they are there, and reading goes on behind it |
| TcpPackets.CutStream | net/tcp_reader.go:25-67 | a stream cut off anywhere gives exactly the packets complete by then |
| TcpPackets.CompleteAll | net/tcp_reader.go:25-67 | all packets are complete only in the whole stream |
| TcpPackets.FitsExactly | net/tcp_writer.go:30-32 | a packet is read back if and only if its length fits in 32 bits |
| TcpPackets.CutLooksEnded | net/tcp_reader.go:53-66 | a stream cut off anywhere looks ended if and only if the cut is between two packets or right behind the head of one |
| TcpPackets.Writer.WritePacket | net/tcp_writer.go:20-41 | length and body are appended, through the reused header buffer |
| TcpPackets.Reader.ReadFull | net/tcp_reader.go:53-66 | fills the front of the buffer for any chunking, or reports EOF or unexpected EOF |
| TcpPackets.Reader.ReadBody | net/tcp_reader.go:61-67 | a body longer than 4096 bytes gets a buffer of its own length, which replaces the old one; any other is read into the old one |
| TcpPackets.Reader.ReadPacket | net/tcp_reader.go:25-42 | returns the next packet as a fresh copy exactly when it is complete; otherwise EOF exactly when nothing is left or only the head of a packet that is not empty, else unexpected EOF |
| TcpPackets.ReadPackets | net/tcp_reader.go:25-67 | successive reads return exactly the stream's packets, no later read alters an earlier packet, and the error at the end is EOF exactly when what remains looks ended |
| TcpPackets.SendAndReceive | net/tcp_connection.go:46-64 | what one end sends the other receives, packet by packet, and then EOF |
| TcpPool.StepKeeps | net/tcp_client.go:32-178 | every critical section of every caller keeps the ownership invariant |
| TcpPool.RunKeeps | net/tcp_client.go:32-229 | the invariant, with queues no longer than the limit, holds in every state of every interleaving |
| TcpPool.OnePlace | net/tcp_client.go:22-99 | every open connection is in exactly one pool slot, or with exactly one caller, or lost by exactly one; a pooled one is open, has no outstanding response, and was dialled for that address |
| TcpPool.HeldUntouched | net/tcp_client.go:101-178 | no step of another caller touches a caller's connection |
| TcpPool.TakesOldest | net/tcp_client.go:35-46 | a queue is first in, first out: a caller gets the connection that entered first among those still there |
| TcpPool.PurgeEmpties | net/tcp_client.go:88-99 | a purge closes every connection pooled for the address and leaves none pooled, and closes or unpools no other |
| TcpPool.DialsAfterPurge | net/tcp_client.go:106-117 | in every run a caller that purged with a pass left next finds nothing pooled and goes on to dial, whatever others did in between, unless one of them put a connection back for the address |
| TcpPool.RetriesOnce | net/tcp_client.go:106-117 | of at most two passes a stale connection is followed by another one exactly in the first |
| TcpPool.Progress | net/tcp_client.go:106-166 | a caller can always take its next step and returns after at most 18 of its own |
| TcpPool.LosingExactly | net/tcp_client.go:111-117 | a caller has lost or is about to lose a connection exactly when one of the two failures happened |
| TcpPool.ReturnedRequest | net/tcp_client.go:101-229 | a returned request has pooled or closed every connection it took if and only if neither failure happened; a lost one stays open and out of reach |
| TcpPool.LosesItsConnection | net/tcp_client.go:184-187 | a run in which a request without response loses a connection |
| TcpPool.DeadlineLosesIt | net/tcp_client.go:111-117 | a run in which SetDeadline fails on a reused connection, which stays open, unpooled and unheld |
| TcpClient.PopFront | net/tcp_client.go:39-41 | the in-place shift removes the first connection and keeps the others in order |
| TcpClient.Client.Others | net/tcp_client.go:22-26 | whatever other callers do leaves this caller's call as it was |
| TcpClient.Client.FromPool | net/tcp_client.go:34-49 | the critical section is the Take step: the front of a queue that is not empty is returned and the rest kept; otherwise the pool is as it was and the caller goes on to dial |
| TcpClient.Client.Connect | net/tcp_client.go:53-68 | refused, connected, or connected with a keep-alive error, and where that leaves the caller |
| TcpClient.Client.NewConnection | net/tcp_client.go:32-51 | pooled or dialled outside the lock |
| TcpClient.Client.SetDeadline | net/tcp_client.go:111-117 | on failure a reused connection is retried, a new one ends the request |
| TcpClient.Client.SendPacket | net/tcp_client.go:119-138 | an error closes the connection; one that comes at once on a reused connection retries |
| TcpClient.Client.ReceivePacket | net/tcp_client.go:140-162 | the same for the response |
| TcpClient.Client.CloseEvery | net/tcp_client.go:94-96 | the loop closes exactly the listed connections |
| TcpClient.Client.CloseAll | net/tcp_client.go:88-99 | everything pooled for the address is closed and its queue deleted |
| TcpClient.Client.Retry | net/tcp_client.go:112-114 | purging and going on is the Purge step: afterwards the address has no pooled connection, every one that was in its queue is closed, and no other connection is closed or unpooled |
| TcpClient.Client.Settle | net/tcp_client.go:70-86 | at the end the connection is appended to its queue, or closed after an error or at the limit |
| TcpClient.Client.Request | net/tcp_client.go:101-229 | the retry loop, with other callers' steps between its own, is a run of the state machine of one or two passes that ends with the call done, failed exactly when an error is returned |
| Timers.SameId | task/timer_task.go:30-32 | two allocations have the same int32 id if and only if they are a multiple of 2^32 apart |
| Timers.IdOfCount | task/timer_task.go:30-32 | an id is its count while that fits an int32, and then the int32 that differs by a multiple of 2^32 |
| Timers.NoCollision | task/timer_task.go:30-32 | ids do not collide within 2^32 allocations |
| Timers.IdIsFree | task/timer_task.go:40-42 | a task about to be inserted finds its id unused |
| Timers.StepKeeps | task/timer_task.go:30-115 | every step of every goroutine keeps the invariant, unless it is an insertion that meets an occupied id |
| Timers.InsertExactly | task/timer_task.go:37-43 | an insertion keeps the invariant if and only if the id is free |
| Timers.PoolExactly | task/timer_task.go:30-115 | in every interleaving: in every state the pool holds exactly the tasks inserted and not deleted, each under its own id, if and only if no insertion met an occupied id |
| Timers.OneLeftExactly | task/timer_task.go:30-115 | in every interleaving: a singleton type has at most one task left in every state, if and only if no creation of the type begins while one that is left has lost its pool entry; for tasks not yet deleted and for tasks not yet finished |
| Timers.AlwaysOnePooled | task/timer_task.go:92-114 | in every state of every interleaving, whatever ids coincide, a singleton type has at most one task in the pool |
| Timers.TickExactly | task/timer_task.go:92-105 | in every state of every interleaving a tick goes on to create a task if and only if the type is no singleton or no pool entry names a task of it; otherwise it changes nothing |
| Timers.AheadExactly | task/timer_task.go:37-72 | from a reachable state two handler runs of a singleton type can become active without a further creation if and only if two of its tasks are unfinished |
| Timers.OneRunExactly | task/timer_task.go:30-115 | in every interleaving: every state rules out a second active run before the next creation, if and only if no creation of the type begins while an unfinished task has lost its pool entry; and then at most one run is active |
| Timers.ClashComesFirst | task/timer_task.go:40-42 | a task loses its pool entry before a creation only if an insertion met an occupied id |
| Timers.Singleton | task/timer_task.go:30-115 | in every interleaving in which no insertion meets an occupied id a singleton type has in every state at most one task not yet deleted, and one active run |
| Timers.YoungNeverClashes | task/timer_task.go:30-43 | while no task outlives 2^32 id allocations no insertion meets an occupied id and live ids differ |
| Timers.WrapBreaksSingleton | task/timer_task.go:30-43 | a run in which, after 2^32 allocations, an insertion meets an occupied id, a creation begins with an unfinished task out of the pool, and a singleton has two active runs |
| TimerScheduler.Scheduler.Scan | task/timer_task.go:94-104 | the scan in any order says whether the pool has a task of the type that is marked singleton |
| TimerScheduler.Scheduler.TakeId | task/timer_task.go:31-39 | taking an id and building the task is the Alloc step: one more than the last, in a task of the type with its singleton mark |
| TimerScheduler.Scheduler.InsertTask | task/timer_task.go:40-42 | the insertion under the lock is the Insert step: the pool has the task under its id |
| TimerScheduler.Scheduler.NewTimerTask | task/timer_task.go:30-44 | id allocation and insertion as two sections with other goroutines in between, a run of the state machine |
| TimerScheduler.Scheduler.OnTick | task/timer_task.go:92-114 | a tick always creates a task of a type that is no singleton, and one of a singleton if and only if no pool entry names a task of the type |
| TimerScheduler.Scheduler.Run | task/timer_task.go:46-63 | a launched task, run among any steps of the other goroutines, none of which touches it, ends finished with no entry under its id |
| TimerScheduler.Scheduler.Remove | task/timer_task.go:59-61 | the entry under the task's id is deleted, whichever task it names, and no other |
| TimerScheduler.Scheduler.Serve | task/timer_task.go:74-115 | first creation and ticker loop, among any other steps, are a run of the state machine; a singleton has at most one pool entry, and one active run if no creation of it began with an unfinished task out of the pool |
| Uuid.VersionStamp | common/uuid.go:141-185 | a four-bit version is read back, a larger one loses its high bits, and nothing else changes |
| Uuid.VariantStamp | common/uuid.go:147-190 | the stamped variant is that of RFC 4122, and the other bits, the version and the other bytes stay |
| Uuid.VariantBits | common/uuid.go:147-157 | the four variants are told by the leading bits 0, 10, 110 and 111 of byte 8 |
| Uuid.PackRoundTrip | common/uuid.go:331-347 | a packed UUID has version 1 and variant RFC 4122 and gives back 60 bits of time, 14 of clock sequence, and the node |
| Uuid.Layout | common/uuid.go:331-347 | byte by byte the layout of section 4.1.2 of RFC 4122: low, middle and high bits of the time, version, variant, clock sequence and node |
| Uuid.PackEqual | common/uuid.go:331-347 | two packed UUIDs are equal if and only if times agree modulo 2^60, clock sequences modulo 2^14, and nodes |
| Uuid.BumpsThenTime | common/uuid.go:319-325 | (bumps, time) grows lexicographically from call to call |
| Uuid.EqualExactly | common/uuid.go:313-347 | two UUIDs of one run are equal if and only if times agree modulo 2^60 and bump counts modulo 2^14 |
| Uuid.Unique | common/uuid.go:313-347 | they differ with times below 2^60 and fewer than 2^14 bumps between them |
| Uuid.SetVersion | common/uuid.go:183-185 | stamps byte 6 in place and leaves the other bytes |
| Uuid.SetVariant | common/uuid.go:188-190 | stamps byte 8 in place and leaves the other bytes |
| Uuid.Generator.GetStorage | common/uuid.go:313-328 | the 16-bit clock sequence is the one the calls so far lead to: one more, modulo 2^16, exactly for a time not later than the last |
| Uuid.Generator.NewUUIDV1 | common/uuid.go:331-347 | the array filled in place is the packed time, clock sequence and node of this call |
| Uuid.MakeMany | common/uuid.go:313-347 | a whole run without repetition, under the condition on times and bumps |
| UuidText.HexReads | common/uuid.go:223-223 | hexadecimal digits in either case decode to the bytes they stand for |
| UuidText.UnhexOnly | common/uuid.go:223-223 | what decodes is, but for case, the hexadecimal form of the result |
| UuidText.HexValues | common/uuid.go:223-223 | the sixteen digits in either case and nothing else have values |
| UuidText.PairsExactly | common/uuid.go:223-223 | the bytes written are those of the pairs before the first that has no value |
| UuidText.PrefixSkipped | common/uuid.go:210-214 | in front of the digits exactly "urn:uuid:" in lower case or one brace is skipped |
| UuidText.AcceptsExactly | common/uuid.go:204-234 | a text is read as u if and only if it has at least 32 bytes and, after an optional "urn:uuid:" or brace, starts with u in groups with or without dashes; the rest is ignored |
| UuidText.TextRoundTrip | common/uuid.go:166-234 | every value is read back from its String form and from its 32 digits: plain, after a brace, in braces, after "urn:uuid:", with anything behind |
| UuidText.StringLayout | common/uuid.go:166-180 | 36 characters, dashes at 8, 13, 18 and 23, and every byte in its place as two lower-case digits |
| UuidText.PanicsExactly | common/uuid.go:204-234 | for every text and every capacity: a panic if and only if the text has at least 32 bytes and, after an optional "urn:uuid:" or brace, starts with some whole groups and has at the next one no byte left, or too few digits for it |
| UuidText.LongEnough | common/uuid.go:218-231 | a simple bound: with room for every digit and every dash there is no panic, whatever the text |
| UuidText.TooShort | common/uuid.go:218-231 | a simple case: digits only, fewer than the groups need, always panic |
| UuidText.BracePanics | common/uuid.go:205-223 | a brace and 31 digits pass the length test and panic |
| UuidText.ToString | common/uuid.go:166-180 | the buffer filled in place is the five groups with their dashes |
| UuidText.UnmarshalText | common/uuid.go:204-234 | outcome and bytes written in place, also before a malformed digit or a panic, are those specified |
| TextLayout.Truncate | common/runewidth.go:415-432 | a fitting text unchanged, otherwise the longest prefix that leaves room for the tail; the result fits exactly when the text or the tail does |
| TextLayout.StringWidth | common/runewidth.go:408-413 | the loop adds up the widths |
| TextLayout.OnlyNewlinesAdded | common/runewidth.go:434-454 | wrapping only inserts newlines |
| TextLayout.UnchangedIffFits | common/runewidth.go:434-454 | wrapping changes nothing if and only if every line fits |
| TextLayout.WrapLaws | common/runewidth.go:434-454 | all lines fit, and wrapping again changes nothing, if and only if no character is wider than the line; so always for widths up to 2 and w of at least 2 |
| TextLayout.ShortestWrap | common/runewidth.go:434-454 | of all texts made by inserting newlines whose lines fit, the wrapped one is the shortest, and of those the one with the narrowest last line |
| TextLayout.TooWide | common/runewidth.go:434-454 | a character of width 2 on lines of width 1 gets one newline more at each wrapping |
| TextLayout.Wrap | common/runewidth.go:434-454 | the loop computes the wrapped text, its column the width of the last line |
| TextLayout.FillLeft | common/runewidth.go:456-467 | spaces in front make the width the larger of w and the text's |
| TextLayout.FillRight | common/runewidth.go:469-480 | the same behind |
| Tables.ColumnsAtLeast | common/table.go:182-187 | lineLength counts each field once: the columns of a row add up to it exactly for distinct fields, and to more otherwise |
| Tables.RowAligned | common/table.go:128-147 | a row is lineLength wide if and only if its values fit and no field is listed twice |
| Tables.GrownFits | common/table.go:189-206 | columns only grow, and afterwards the row's values and the field names fit |
| Tables.GrownExactly | common/table.go:189-206 | a measured field's column is exactly two more than the wider of name and value, or what it was if that is more; no other column changes |
| Tables.PrintedLines | common/table.go:85-116 | the printed lines and their order: dashes, titles, dashes, every row with dashes behind it, a footer between dashes; in Markdown dashes only behind the titles and before the footer |
| Tables.MarkdownField | common/table.go:171-179 | the dashes of a field fill its column but for a space on both sides |
| Tables.AlignedExactly | common/table.go:85-206 | header, rows, footer, dash lines and Markdown dash lines are all exactly lineLength wide if and only if no field is listed twice, every field has a column, titles fit, and dashes have a field; with a row every field has a column |
| Tables.Misaligned | common/table.go:128-187 | a table with a field listed twice and one row, whose lines are not aligned |
| Tables.UnsizedExactly | common/table.go:189-206 | measuring a row leaves every field with a column if and only if each had one or has a value in the row |
| Tables.FooterOnly | common/table.go:85-116 | a Markdown table of one field with a footer and no rows panics if and only if the footer has no value for it |
| Tables.TitlesFit | common/table.go:119-125 | titles no wider than their names fit once there is a row |
| Tables.Table.CalculateSizes | common/table.go:189-206 | the loop grows the columns as specified |
| Tables.Table.AddRow | common/table.go:56-77 | stores a value for every field, empty for nil or missing, with room for it; no row without fields |
| Tables.Table.AddFooter | common/table.go:79-82 | the footer is replaced and no column grows before printing |
| Tables.Table.FieldString | common/table.go:138-147 | a space, the value, a space, and spaces up to the width of its column |
| Tables.Table.RowString | common/table.go:128-135 | a bar, and for every field in order its text, of nothing where the row has no value, and a bar |
| Tables.Table.GetHead | common/table.go:119-125 | the row of titles |
| Tables.Table.LineLength | common/table.go:182-187 | the sum over the sizes in any order of the map |
| Tables.Table.PrintDash | common/table.go:160-168 | a bar, dashes and a bar, lineLength wide |
| Tables.Table.PrintMarkdownDash | common/table.go:171-179 | the row of dashes, or a panic exactly when a field has no column |
| Tables.Table.Print | common/table.go:85-116 | the sizes with the footer measured, the printed lines, all aligned if and only if the table is neat; a panic if and only if a Markdown table without rows has a footer and a field with neither a column before the call nor a value in the footer |

## Left out

- WsConn.Conn.Write: write and flush errors and the closing of the socket; the buffered writer passes bytes on in any portions.
- WsConn.Conn.Receive: what `unmarshal` and JSON or user codecs make of a payload; `marshal` only picks the payload type.
- WsConn.NewFrameReader: `Len`, whose sum could overflow and which nothing uses.
- WsEndToEnd.WireIsWholeFrames: one reader at a time; the read lock is not interleaved, since readers share no state with writers but the write lock.
- The opening handshake, masking key generation (any keys), TLS, deadlines, and the real network.
- BinderTexts.FalseTexts: lower-casing in `Atob` is that of ASCII; no other capital becomes a letter of the six words.
- BinderLoops.Bind: JSON bodies, uploaded files, pointers, times, floats, embedded and unexported fields, and maps to anything but scalars; byte slices bind to empty; the entries of a map have at least one value each, as form parsing guarantees.
- BinderLoops.BindSlice: running out of memory for a huge index; no slice is longer than 2^63-1.
- TokenBucket.Bucket.Cal: overflow of times and ticks, so the branch for waits beyond maxWait is dead; the clock is a parameter.
- TokenBucket.SearchIncrement: float32 arithmetic; fill interval and margin test are any functions of the increment, without NaN, infinities, and intervals beyond 64 bits.
- TokenBucket.SearchAtRate: the interval is not rounded to float32, so the bound of 1e9 is exact up to that; a rate of zero, whose interval is infinite.
- The leaky bucket beyond its step function: its conforming branch returns without counting the request, so it keeps no bound worth stating.
- TcpPackets.Reader.ReadPacket: the rate limiter's pause between head and body.
- TcpPool.OnePlace: the limit is fixed; a peer that closes its end, `LenClientTcpConnections`, and the close hooks.
- TcpClient.PopFront: the queues of the pool are values; the shift of the backing array is proved on an array of its own, without sharing between slices.
- Timers.Singleton: types create their first tasks in any order, not in that of one loop; handlers that never return; the task log.
- Uuid.Generator.NewUUIDV1: hardware address discovery and the random start of the clock sequence (any values); UUID versions 2 to 5.
- UuidText.UnmarshalText: `Scan` and the binary forms, which copy 16 bytes.
- TextLayout.Wrap: the Unicode width tables; any width function will do, and one serves both the given and the default condition, which the code of `wrap` consults.
- Tables.Table.AddRow: formatting of values with `%v`; the stored texts are given.
- Tables.Table.Print: logging, and the newlines between lines, of which dash lines get two.
- Router, controllers, results, configuration, MySQL, AES, log rotation and the TCP server's wait accounting.
