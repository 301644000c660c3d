# Verified model of jkfr

A Dafny model of six stateful components of jkfr, a Go toolkit for RPC services, with
proofs of what they keep over unbounded inputs and runs.

- `Words`, `Sequences`, `Options`: what several of the others use.
- `Bits`, `Varint`, `Skip`, `Codec`, `Messages`: the generated protobuf code of Person and
  PersonsReply. `Codec` has a forward encoder and decoder on byte sequences; `Messages` has
  the imperative methods, which write backwards into an array and parse in loops, proved
  against it. The wire format is that of the Protocol Buffers Encoding specification,
  sections "Base 128 Varints", "Message Structure", "Last One Wins" and "Groups".
- `PoolClient`, `Recycler`, `Slots`, `Pool`: the connection pool. Each lock-protected
  operation is one step; in `Get`, picking, connecting and pushing are one step. The
  recycling loop is a state machine whose steps interleave with everything else.
- `TimeoutCodec`: the codec as a state machine over events, with results for every run, and
  a class with the list, the map and the deadlines that refines it.
- `RpcPools`: the selector over pools, its scans and its idle sweep.
- `Ordering`, `EndpointCache`: snapshots reconciled with live endpoints, and the error
  deadline as a function of the history.
- `Rng`: the random source.

`dafny verify dfyconfig.toml` checks the whole project.

## Conventions

Clocks, dial results, factory results, random draws and errors of closing are parameters.
Clocks are integers in nanoseconds, counted from the zero time. Or-ing bits is defined bit
by bit on naturals and proved to be addition where the bits are disjoint; shifts, casts and
sums that wrap in Go wrap here. Strings of messages are byte sequences. A ghost log, history
or set records what the statements over runs are about. A panic is an outcome of the call,
and a run ends with it.

A factory keeps its contract when it returns a client and a connection on success and no
connection on failure. No operation asks for that: the ghost field `proper` of
`Slots.Clients` says that the factory has kept it so far, and what depends on it is stated
under that condition.

What the environment is taken to do, where a contract asks for it:

- The clock is at least one second past the zero time, and fewer than 2^63 Gets are made.
- net/rpc gives every request a new sequence number, calls for a body after every header,
  and passes a nil body for an error response. net/rpc is not part of this model.
- A message's encoding, and the bytes handed to a parser, are shorter than 2^63.
- There are fewer than 2^32 pools of pools, and at most 2^31 for the least strategy.

## Where the code falls short

Each of these is kept as the code has it and stated exactly.

- `Slots.Clients.InitClients`, `Pool.Pool.Init`, `Pool.StuckReconnection`: the flag
  `initting` is not cleared when a connect fails (gokit/transport/pool/pool.go:366), so after one failed
  reconnection every later call returns nil and connects nothing.
- `Slots.Clients.Get`, `Pool.UnconnectedHandOut`: when a dial fails, the comment at gokit/transport/pool/pool.go:389 says an existing
  connection is taken; the looked-up client is bound to a new variable, so the unconnected
  one is handed out.
- `PoolClient.HalfOpenDial`, `Pool.GetFromBadFactory`: gokit/transport/pool/rpc/fatory.go:66-68 returns the
  connection together with an error of newClient, and the pool then has a connected slot
  that its map does not know.
- `Pool.NewPool`, `Pool.NewPoolPanics`, `Pool.Pool.Put`: when newClient also returns no
  client, closing that slot calls a method of a nil interface (gokit/transport/pool/pool.go:135), so NewPool
  panics instead of returning the error, and so does a bad Put.
- `Pool.CloseLeaks`, `Pool.CloseLeakExample`: Close stops destroying slots at the first error of closing, and the
  connections of later slots stay open.
- `TimeoutCodec.RunAligned`, `TimeoutCodec.OnlyFailedWritesRace`, `TimeoutCodec.RaceExample`:
  a timed-out request whose own write fails before its body call makes the codec read a
  body that has no header.
- `RpcPools.FallbackFinds`, `RpcPools.RandomIndexCanMiss`: near 2^32 the fallback scan of a
  random index can pass over the only connected pool.
- `RpcPools.CloseReturns`, `RpcPools.CloseStuck`: Close sends its exit signal with the
  lock held (gokit/transport/pool/rpc/pools.go:291), and a sweep that needs the lock never receives it.
- `EndpointCache.RepeatsOverwrite`, `EndpointCache.RepeatLeaks`: an instance named twice in
  a snapshot gets two endpoints, one of which is never closed.
- `Rng.FeedMeetsTap`: the tap counts up while the feed counts down, so the lag between them
  is not fixed, and some outputs are a cell doubled.

## Model

| member | source | states |
|---|---|---|
| Varint.SovIsLength | protobuf/demo/helloworld.pb.go:723-725 | the bit-length formula counts exactly the bytes of the base 128 varint of every 64-bit value |
| Varint.EncodeVarint | protobuf/demo/helloworld.pb.go:635-645 | writes exactly the varint of v so that it ends at offset, returns where it begins, and changes no other byte of the buffer |
| Varint.GroupsOf | protobuf/demo/helloworld.pb.go:635-645 | byte k of a varint is the k-th group of seven bits with the high bit on all but the last |
| Varint.ReadVarint | protobuf/demo/helloworld.pb.go:1096-1109 | the shift-and-or loop gathers what a group-by-group reading gathers: the value truncated to 64 bits, the position, and overflow or unexpected end with what was gathered until then |
| Varint.VarintRoundTrip | protobuf/demo/helloworld.pb.go:635-645 | a varint of any 64-bit value, at any place in any bytes, reads back as that value and ends where it was written to end |
| Varint.AtMostTenBytes | protobuf/demo/helloworld.pb.go:723-725 | no 64-bit value needs more than ten bytes, so the reader's ten-byte limit never refuses a written varint |
| Varint.LastOrDropsBits | protobuf/demo/helloworld.pb.go:1099-1108 | the tenth group has room for one bit: or-ing it in is addition modulo 2^64 |
| Varint.VarintEmbeds | protobuf/demo/helloworld.pb.go:1096-1109 | a varint read inside longer bytes gives the same value, shifted |
| Varint.CutVarint | protobuf/demo/helloworld.pb.go:1096-1109 | bytes that all ask for more give unexpected end when there are fewer than ten and overflow otherwise |
| Skip.SkipHelloworld | protobuf/demo/helloworld.pb.go:1226-1303 | the skipping loop returns the end of the first element of a grammar of nested groups, or that grammar's error |
| Skip.ReadToken | protobuf/demo/helloworld.pb.go:1231-1297 | one turn of the loop up to its counter reads exactly a token of the grammar, or fails with that token's error, sums past the largest int included |
| Skip.CountingFollowsGroups | protobuf/demo/helloworld.pb.go:1230-1300 | at any number of open groups, the loop with its counter goes to the end of the innermost group and on with one fewer open |
| Skip.SkipIsElement | protobuf/demo/helloworld.pb.go:1226-1303 | the counter loop accepts exactly the elements of the grammar, with the same ends and the same errors |
| Skip.FieldIsElement | protobuf/demo/helloworld.pb.go:1226-1303 | every well-formed field (varint, fixed64, length-delimited, fixed32, groups nested to any depth, numbers up to 2^29-1) ends exactly where its bytes end, whatever surrounds it |
| Skip.FieldsFillGroup | protobuf/demo/helloworld.pb.go:1283-1291 | any well-formed fields followed by an end tag fill a group exactly |
| Skip.ElementExtends | protobuf/demo/helloworld.pb.go:1226-1303 | an element that ends inside some bytes is unchanged when more bytes follow |
| Skip.NoElement | protobuf/demo/helloworld.pb.go:1285-1296 | an end tag without a group and the wire types 6 and 7 are refused, each with its error |
| Skip.LongElement | protobuf/demo/helloworld.pb.go:1263-1282 | a length-delimited field ends where its length says, and a length past the largest int is refused |
| Skip.OpenGroupIsNoElement | protobuf/demo/helloworld.pb.go:1283-1302 | a group of any fields that the bytes do not close is an unexpected end |
| Codec.EncodedPersonMerges | protobuf/demo/helloworld.pb.go:1090-1225 | wherever an encoded person stands, decoding over it merges it field by field into the message, later non-default fields winning |
| Codec.PersonRoundTrip | protobuf/demo/helloworld.pb.go:1090-1225 | for every name, sex and int64 age, negative ones included, Unmarshal of the encoded bytes succeeds and gives the person back |
| Codec.PersonsMerge | protobuf/demo/helloworld.pb.go:1090-1225 | two encoded persons one after the other decode to their field-wise merge |
| Codec.EncodedReplyAppends | protobuf/demo/helloworld.pb.go:1003-1089 | wherever encoded persons stand, decoding over them appends them in order |
| Codec.ReplyRoundTrip | protobuf/demo/helloworld.pb.go:1003-1089 | for any number of persons, Unmarshal of the encoded reply gives the same list back |
| Codec.RepliesAppend | protobuf/demo/helloworld.pb.go:1061-1065 | two encoded replies one after the other decode to the two lists appended |
| Codec.PersonStepEmbeds | protobuf/demo/helloworld.pb.go:1093-1219 | one turn of the Person loop does the same inside longer bytes, for every field, wire type and error |
| Codec.ReplyStepEmbeds | protobuf/demo/helloworld.pb.go:1006-1083 | one turn of the PersonsReply loop does the same inside longer bytes |
| Codec.PersonConcatenation | protobuf/demo/helloworld.pb.go:1090-1225 | for any bytes of which the first part decodes, decoding the concatenation is decoding the parts in turn: the same message, and failure in the one exactly when in the other |
| Codec.ReplyConcatenation | protobuf/demo/helloworld.pb.go:1003-1089 | the same for replies |
| Codec.PersonIgnoresUnknown | protobuf/demo/helloworld.pb.go:1202-1217 | a well-formed field with an unknown number between any two parts of the bytes changes nothing in what is decoded |
| Codec.ReplyIgnoresUnknown | protobuf/demo/helloworld.pb.go:1066-1081 | the same for replies |
| Codec.LastAgeWins | protobuf/demo/helloworld.pb.go:1183-1201 | after any bytes that decode, an age field with any 64-bit value, zero included, sets the age to it and keeps the rest |
| Codec.LastStringWins | protobuf/demo/helloworld.pb.go:1119-1182 | after any bytes that decode, a name or sex field with any bytes, none included, sets that field and keeps the rest |
| Codec.LastNestedAppended | protobuf/demo/helloworld.pb.go:1031-1065 | after any bytes that decode, a nested person with any bytes is appended as far as it decodes, and its error, if any, ends the reply |
| Codec.BadTagStops | protobuf/demo/helloworld.pb.go:1110-1122 | an end tag, a field number that is below one as a signed 32-bit number, and a known field with another wire type each stop a person with their error and the message as it was |
| Codec.BadReplyTagStops | protobuf/demo/helloworld.pb.go:1023-1035 | the same for replies |
| Codec.LongStringStops | protobuf/demo/helloworld.pb.go:1138-1148 | a length past the bytes is an unexpected end, and one past the largest int an invalid length |
| Codec.LongNestedStops | protobuf/demo/helloworld.pb.go:1050-1060 | the same for nested persons |
| Codec.CutAgeStops | protobuf/demo/helloworld.pb.go:1187-1201 | an age that is cut short or too long stops with what was gathered of it in the message |
| Codec.CutTagStops | protobuf/demo/helloworld.pb.go:1096-1109 | a tag that is cut short or too long stops with that error, for persons and replies |
| Codec.BadUnknownStops | protobuf/demo/helloworld.pb.go:1202-1217 | an unknown field that is no element, or ends past the bytes, stops with that error, for persons and replies |
| Messages.TagBytes | protobuf/demo/helloworld.pb.go:616-630 | the literal bytes 0x0a, 0x12 and 0x18 of the writers are the tags of the three fields |
| Messages.PersonBytes | protobuf/demo/helloworld.pb.go:608-633 | the bytes of a person: name, sex, age in this order with their literal tags, each left out at its default |
| Messages.ReplyBytes | protobuf/demo/helloworld.pb.go:571-591 | the bytes of a reply: each person's, with length and literal tag, in list order |
| Messages.Person.Size | protobuf/demo/helloworld.pb.go:703-721 | Size is the number of bytes of the encoding |
| Messages.PersonsReply.Size | protobuf/demo/helloworld.pb.go:688-701 | Size is the number of bytes of the encoding |
| Messages.Person.MarshalToSizedBuffer | protobuf/demo/helloworld.pb.go:608-633 | the backward writer leaves the forward encoding in the last Size bytes before the end, returns Size, and changes no other byte |
| Messages.PersonsReply.MarshalToSizedBuffer | protobuf/demo/helloworld.pb.go:571-591 | the same for replies: persons written last first stand in list order |
| Messages.Person.Marshal | protobuf/demo/helloworld.pb.go:593-601 | a new buffer that holds exactly the encoding |
| Messages.PersonsReply.Marshal | protobuf/demo/helloworld.pb.go:556-564 | a new buffer that holds exactly the encoding |
| Messages.Person.Unmarshal | protobuf/demo/helloworld.pb.go:1090-1225 | the parsing loop leaves in the fields, and returns as error, what decoding the bytes onto the old fields gives, partial fills on errors included |
| Messages.PersonsReply.Unmarshal | protobuf/demo/helloworld.pb.go:1003-1089 | the parsing loop appends new persons and leaves the old ones alone; values and error are those of decoding |
| PoolClient.Settle | gokit/transport/pool/pool.go:635-641 | for all options, negative ones included, the capacities end with 1 <= InitCap <= MaxCap; each is kept where it can be, and what a MaxCap below InitCap becomes |
| PoolClient.Refused | gokit/transport/pool/options.go:58-70 | settled options are refused exactly for a zero dial, read or write timeout or a missing factory: the capacities never are |
| PoolClient.Client.Connect | gokit/transport/pool/pool.go:74-112 | dials exactly when not destroyed, not connected and a second has passed; what is returned and kept in every case |
| PoolClient.Client.Close | gokit/transport/pool/pool.go:130-144 | panics exactly when there is a connection and no transport client; otherwise never connected afterwards, with an error only from a connection that was open |
| PoolClient.HalfOpenDial | gokit/transport/pool/pool.go:104-107 | a factory that returns a connection with its error makes Connect fail once and then report success; exactly those factories do |
| Recycler.Recycle.Push | gokit/transport/pool/pool.go:200-233 | a client without a transport client or known already changes nothing; with fewer than min(10*MaxCap, 2000) tokens it is appended and a token sent, otherwise it is appended and the oldest dropped and closed, and only it; list and map keep the same clients and the length bound |
| Recycler.Recycle.EvictOldest | gokit/transport/pool/pool.go:220-229 | the front of the list leaves list and map and is closed; the others stay as they were |
| Recycler.Recycle.Remove | gokit/transport/pool/pool.go:235-250 | exactly that client leaves list and map, the others in order |
| Recycler.Recycle.TakeToken | gokit/transport/pool/pool.go:261-261 | the loop takes a token and owes one check of the length; the bound holds with it counted |
| Recycler.Recycle.CheckLength | gokit/transport/pool/pool.go:262-267 | the loop goes back to waiting only when the list is no longer than MaxCap |
| Recycler.Recycle.GetOneClient | gokit/transport/pool/pool.go:284-307 | a client that is unused or past its timeouts if there is one, else the oldest if the list is too long, else none and all are in use; within MaxCap no client in use is picked |
| Recycler.Recycle.RemovePicked | gokit/transport/pool/pool.go:271-275 | the picked client leaves the list, even when an eviction came between |
| Recycler.Recycle.CloseRemoved | gokit/transport/pool/pool.go:275-275 | the removed client is closed and the drain goes on |
| Recycler.Recycle.Drain | gokit/transport/pool/pool.go:271-279 | whatever order the map is looked through in, a client stays exactly when it is in use within its timeouts and fewer than MaxCap such clients are after it; what stays is in order, and exactly those that left are closed |
| Recycler.Recycle.AwaitExit | gokit/transport/pool/pool.go:252-282 | wherever the loop stands and however often it is woken before it takes the exit signal, it comes to wait, and every client that left the list or was in its hands is closed |
| Recycler.Recycle.Close | gokit/transport/pool/pool.go:171-185 | wherever the loop stands, every client of the list and the one in the loop's hands ends up closed |
| Recycler.RemoveKeepsMap | gokit/transport/pool/pool.go:243-247 | taking a client out of list and map leaves them holding the same clients |
| Slots.Clients.MinGet | gokit/transport/pool/pool.go:402-428 | the first unused client of the first InitCap slots if there is one, else the first client of least reference count over all slots |
| Slots.Clients.RoundGet | gokit/transport/pool/pool.go:430-451 | the first unused client of the first InitCap slots if there is one, else the slot whose turn it is, and the turn moves on modulo 2^64 |
| Slots.Clients.PickMeans | gokit/transport/pool/pool.go:402-451 | what the two choices have in common and where they differ: the first unused of the first InitCap slots; else least used and first such, or next in turn |
| Slots.Clients.Attach | gokit/transport/pool/pool.go:387-397 | for any answer of the factory: connected, in the map and in error as the factory said; no connection is lost exactly when nothing was dialled or the factory kept its contract |
| Slots.Clients.Get | gokit/transport/pool/pool.go:379-400 | for any factory, which slot is picked, an error exactly when its connect fails and the map is empty, and what the map gains; while the factory keeps its contract, an unconnected client is handed out exactly when the slot is not connected by then and the map is not empty |
| Slots.Clients.Succeeds | gokit/transport/pool/pool.go:74-112 | while the factory keeps its contract, Connect reports success exactly when the client is connected or its dial succeeds, and then the client is connected |
| Slots.Clients.InitClients | gokit/transport/pool/pool.go:341-377 | a call made while the flag is set, by a failed call or one under way, returns nil and changes nothing; any other, with any factory, tries the slots up to the first that fails, ends with its error, and then leaves the flag set |
| Slots.Clients.ConnectFirst | gokit/transport/pool/pool.go:349-372 | the loop: exactly the slots up to and with the first failure are tried, each ends as its dial says, and no other changes |
| Slots.Clients.InitSlot | gokit/transport/pool/pool.go:351-371 | one turn of the loop: the slot ends as its dial says, and a failure ends the call without giving the flag back |
| Slots.Clients.Vacate | gokit/transport/pool/pool.go:506-514 | the slot gets a new unconnected client with a new tag, and the map loses exactly the old one |
| Slots.Clients.HandOver | gokit/transport/pool/pool.go:200-233 | a client with a transport client that has left its slot ends up in the recycler or closed, so no connection is lost |
| Slots.Clients.MoveRecycle | gokit/transport/pool/pool.go:502-525 | a bad client in its slot is replaced and handed to the recycler, one in the recycler stays, any other is not found and nothing changes |
| Slots.Clients.ConnectedSlot | gokit/transport/pool/pool.go:466-477 | while the factory keeps its contract, a slot's client is connected exactly when the map holds it under its own tag |
| Slots.Clients.RemoveClientIfIdleTimeOut | gokit/transport/pool/pool.go:565-587 | the slot's client is retired to the recycler exactly when it is connected, idle longer than the idle timeout, and unused or past the time of a read and a write |
| Slots.Clients.ClearIdleTimeOutClient | gokit/transport/pool/pool.go:553-563 | in a sweep that nothing comes between there is a cut below which every idle client above InitCap is retired and from which none is; it is the end or the place where InitCap connections were left; the sweep does not go below InitCap |
| Slots.Clients.RecyclerStep | gokit/transport/pool/pool.go:252-282 | every lock-protected step of the recycling loop keeps the invariant of the whole pool and no slot's connection |
| Slots.Clients.CloseStray | gokit/transport/pool/pool.go:722-727 | a bad client in neither map is closed, or the call panics, exactly when it has a connection and no transport client |
| Slots.Clients.Close | gokit/transport/pool/pool.go:598-622 | whatever the recycling loop is doing: slots are destroyed exactly up to the first connection that reports an error or has no transport client, which panics; without a panic the recycler is closed whole, with what its loop has in hand |
| Pool.OpenPoolInvariant | gokit/transport/pool/pool.go:502-525 | in every valid state, with any factory: slot i holds index i; map entries are the current slot clients; the tags of the two maps are disjoint; at most MaxCap entries; the recycler's list within MaxCap plus tokens plus one, hence within MaxCap + min(10*MaxCap, 2000) + 1; and while the factory keeps its contract, a slot is connected exactly when the map has its tag, and no open connection is outside both maps except the one the loop is closing |
| Pool.ConnectedAtMostMaxCap | gokit/transport/pool/pool.go:309-339 | the map of connected clients has at most one entry per slot |
| Pool.MatchedNeverNegative | gokit/transport/pool/pool.go:659-716 | in an open pool whose Puts each answer a Get, no client's reference count is negative |
| Pool.Pool.Get | gokit/transport/pool/pool.go:659-677 | a closed pool refuses; otherwise, with any factory, the client is counted once and stamped, every count stays Gets less Puts, and the error and the unconnected hand-out have the exact conditions of Slots.Clients.Get |
| Pool.Pool.Put | gokit/transport/pool/pool.go:694-727 | counts stay Gets less Puts; a bad client is out of the map and its slot; after Close the client is closed and not counted; it panics exactly when it closes a client with a connection and no transport client |
| Pool.Pool.Init | gokit/transport/pool/pool.go:341-377 | reconnects exactly as long as no earlier call has failed and none is under way: when every slot could be connected, the slots end up connected if and only if that is so or they were connected already |
| Pool.Pool.InitStep | gokit/transport/pool/pool.go:349-374 | a reconnection step by step, with anything in between: it goes on, ends with a failure and the flag set, or ends well after the last slot |
| Pool.Pool.SweepSlot | gokit/transport/pool/pool.go:565-587 | what the sweep does to one slot keeps the invariant at any time, and takes at most one connection from the map |
| Pool.Pool.Close | gokit/transport/pool/pool.go:729-742 | only the first Close acts; which slot connections are closed and which are left open, and at which slot it panics |
| Pool.NewPool | gokit/transport/pool/pool.go:633-657 | for all options and any factory: refused options make no pool; otherwise a pool exactly when every dial succeeds, each of the first InitCap slots connected as its dial says and no other; else the first failing dial's error, unless closing panics, for which the exact condition is given |
| Pool.GetFromBadFactory | gokit/transport/pool/rpc/fatory.go:57-70 | as long as the factory has kept its contract, the dial that returns a connection with its error makes Get leave a connected slot that the map does not know, and the dial that returns neither an unconnected client in the map; no other dial does |
| Pool.StuckReconnection | gokit/transport/pool/pool.go:343-374 | a run: a reconnection fails, and the next, which could connect the empty slot, returns nil and leaves it empty |
| Pool.UnconnectedHandOut | gokit/transport/pool/pool.go:387-399 | a run: the second of two borrowers is handed an unconnected client while another is connected |
| Pool.CloseLeakExample | gokit/transport/pool/pool.go:606-611 | a run: the second of two connected slots stays connected after Close |
| Pool.NewPoolPanics | gokit/transport/pool/rpc/fatory.go:57-70 | a run: a factory that returns a connection, an error and no transport client makes NewPool panic |
| Pool.CloseLeaks | gokit/transport/pool/pool.go:606-611 | a slot connection stays open after Close exactly when some slot's connection reports an error and a later slot was connected, or some slot's connection has no transport client |
| Pool.Run | gokit/transport/pool/pool.go:309-716 | over every run, with any factory, of Gets, Puts, and whole or step-by-step sweeps, reconnections and recycling: the invariant, the bounds and the counts hold at every step, each count being the number of times its client is lent out; the factory's contract suffices for losing no connection and for no panic, and only a bad Put panics; at most one reconnection fails, and the flag is set exactly when one has failed or is under way |
| TimeoutCodec.StepKeepsInv | gokit/transport/pool/rpc/timeout_codec.go:71-220 | every operation keeps the invariant: the queue ordered by request time and without repeats, every request written either pending or gone once, marked exactly while its made-up response waits, and never pending without a read deadline within the timeout |
| TimeoutCodec.FrontDecides | gokit/transport/pool/rpc/timeout_codec.go:155-182 | looking only at the front finds an overdue request exactly when some pending request is overdue, and one that has waited longest |
| TimeoutCodec.BodyTakesOut | gokit/transport/pool/rpc/timeout_codec.go:104-110 | the body call takes the request of its header out of the queue, if it is pending, and no other |
| TimeoutCodec.StepKeepsPlace | gokit/transport/pool/rpc/timeout_codec.go:104-120 | a step keeps the stream aligned exactly when it is not the body call of a made-up response whose request is gone |
| TimeoutCodec.OnlyFailedWritesRace | gokit/transport/pool/rpc/timeout_codec.go:71-85 | that situation arises exactly by a failed write of the very request between the made-up header and its body call |
| TimeoutCodec.RunAligned | gokit/transport/pool/rpc/timeout_codec.go:87-120 | over every run, each inner header is followed by exactly one inner body if and only if no body call is made in that situation |
| TimeoutCodec.EveryRun | gokit/transport/pool/rpc/timeout_codec.go:47-120 | both results for every run from a new codec |
| TimeoutCodec.HeaderDeadline | gokit/transport/pool/rpc/timeout_codec.go:87-96 | over every run between a header call and the next, as long as the header is awaited the read deadline is a year, or with requests pending the read timeout, after some time between that call and now |
| TimeoutCodec.RaceExample | gokit/transport/pool/rpc/timeout_codec.go:71-120 | a run of four events that reads an inner body without a header |
| TimeoutCodec.RemoveKeepsOrder | gokit/transport/pool/rpc/timeout_codec.go:184-203 | taking a request out keeps the queue in order of time |
| TimeoutCodec.Codec.PushReq | gokit/transport/pool/rpc/timeout_codec.go:140-153 | the request joins list and map with its number, service and time, and both deadlines are set from now |
| TimeoutCodec.Codec.RemoveReq | gokit/transport/pool/rpc/timeout_codec.go:184-203 | returns the pending request of that number if there is one, and takes exactly it out of list and map |
| TimeoutCodec.Codec.FailWrite | gokit/transport/pool/rpc/timeout_codec.go:76-80 | a failed write takes exactly its request out; both deadlines are then what the list, the timeouts and a body being read make them |
| TimeoutCodec.Codec.StartHeader | gokit/transport/pool/rpc/timeout_codec.go:87-94 | a response is made up exactly when some request is overdue, for one that has waited longest, with nothing else changed; otherwise both deadlines are set, to the timeouts with requests pending and to a year without, before the inner codec is asked |
| TimeoutCodec.Codec.StartBody | gokit/transport/pool/rpc/timeout_codec.go:104-115 | exactly the request of the header is taken out, and the inner body is read, with the deadline set, unless the response was made up for it and the body is nil |
| TimeoutCodec.Codec.SetDeadlines | gokit/transport/pool/rpc/timeout_codec.go:205-220 | with requests pending the read timeout, otherwise a year, except that a body being read keeps its deadline |
| RpcPools.FallbackFinds | gokit/transport/pool/rpc/pools.go:571-583 | the fallback scan reaches every pool from an index exactly when index plus length does not pass 2^32 or 2^32 is a multiple of the length |
| RpcPools.WrappingScanMisses | gokit/transport/pool/rpc/pools.go:574-574 | otherwise a named slot is never looked at |
| RpcPools.RandomIndexCanMiss | gokit/transport/pool/rpc/pools.go:449-454 | with three pools and a drawn index of 2^32-2, slot 1 is never looked at |
| RpcPools.WholeScanIsCyclic | gokit/transport/pool/rpc/pools.go:572-576 | a scan that does not wrap looks at the slots in cyclic order |
| RpcPools.RpcPools.GetIndexEx | gokit/transport/pool/rpc/pools.go:556-588 | the pool at the index if connected or if none is; for a scan that does not wrap, a connected pool no further from the index than any other whenever some pool is |
| RpcPools.RpcPools.NearestConnected | gokit/transport/pool/rpc/pools.go:571-583 | what the scan selects is where it began or, without wrapping, no further from it than any connected pool |
| RpcPools.RpcPools.NearestLeast | gokit/transport/pool/rpc/pools.go:479-503 | no slot of as few calls is nearer to the random start |
| RpcPools.RpcPools.LeastGetWhenLess | gokit/transport/pool/rpc/pools.go:479-503 | an index in range with the fewest calls despite the early exit, and the first such in cyclic order from the random start; with negative counts the least or one at zero |
| RpcPools.RpcPools.LeastGetWhenBigger | gokit/transport/pool/rpc/pools.go:505-526 | one of the drawn slots, with the fewest calls among them |
| RpcPools.RpcPools.LeastGet | gokit/transport/pool/rpc/pools.go:456-477 | what the scan ends with from a slot of fewest calls: up to twenty pools the nearest such to the random start, beyond that the least of those drawn; a connected pool whenever there is one |
| RpcPools.RpcPools.RollGet | gokit/transport/pool/rpc/pools.go:442-447 | what the scan from the next index ends with; a connected pool whenever there is one, from any index that a choice among at most 2^31 pools has left; a choice on the empty list only counts up |
| RpcPools.RpcPools.RollRound | gokit/transport/pool/rpc/pools.go:442-447 | consecutive choices return the connected pools in list order from the next slot, whichever are not connected, so as many choices as there are connected pools visit each exactly once |
| RpcPools.RpcPools.RandomGet | gokit/transport/pool/rpc/pools.go:449-454 | what the scan from the drawn index ends with; a connected pool whenever there is one, for draws whose scan does not wrap |
| RpcPools.RpcPools.Push | gokit/transport/pool/rpc/pools.go:377-397 | list and map hold the same pools, one per address; a known address closes its old pool once and gets the new one in the same entry |
| RpcPools.RpcPools.NewAndPush | gokit/transport/pool/rpc/pools.go:399-425 | the pool of the address; a new one, last in the list and with the flag asked for, only if there was none, all others staying; none exactly when closed or it cannot be opened; nothing is closed |
| RpcPools.RpcPools.RemoveIndex | gokit/transport/pool/rpc/pools.go:532-554 | exactly the i-th pool leaves list and map and is closed once; nothing happens out of range |
| RpcPools.RpcPools.CloseServer | gokit/transport/pool/rpc/pools.go:304-306 | exactly the pool of the address leaves, and only it is closed |
| RpcPools.RpcPools.RemoveIdleTimeOut | gokit/transport/pool/rpc/pools.go:643-662 | deleting while walking removes and closes once exactly the pools that are not static, idle longer than the timeout and without a call in flight, and leaves the others in order, unclosed |
| RpcPools.SweepAt | gokit/transport/pool/rpc/pools.go:647-661 | what one turn of the sweep does to the list, and when it is done |
| RpcPools.RpcPools.Close | gokit/transport/pool/rpc/pools.go:279-302 | when it returns, every pool ever taken in has been closed exactly once |
| RpcPools.CloseReturns | gokit/transport/pool/rpc/pools.go:279-292 | of the runs that go on from the moment Close takes the lock, some return exactly when no sweep is at work at that moment, and all that end do exactly when no sweep goroutine was started |
| RpcPools.NextStepReturns | gokit/transport/pool/rpc/pools.go:627-640 | with the lock taken, a step that lets Close through is possible exactly when no sweep is at work, is the only one exactly without a sweep goroutine, and no step at all is possible exactly with a sweep at work |
| RpcPools.CloseStuck | gokit/transport/pool/rpc/pools.go:622-641 | a run of three states that ends with the sweep waiting for the lock and Close for the sweep |
| EndpointCache.Cache.Build | gokit/sd/endpoint_cache.go:79-95 | after the loop the new map has the instances carried over or made, the old map what has disappeared, every new endpoint is one the factory returned for its instance, and every endpoint ever created is in exactly one place |
| EndpointCache.Cache.CloseLeftovers | gokit/sd/endpoint_cache.go:97-102 | exactly what is left in the old map is removed, and closed once if it has a closer |
| EndpointCache.Cache.Publish | gokit/sd/endpoint_cache.go:104-112 | the list of the cached endpoints in the order of the snapshot |
| EndpointCache.Cache.UpdateCache | gokit/sd/endpoint_cache.go:74-117 | reconciling keeps every endpoint accounted for; which instances have endpoints, which are the old objects, which were removed, what was lost, and what is published |
| EndpointCache.SnapshotWithoutRepeats | gokit/sd/endpoint_cache.go:74-117 | a snapshot without repeats loses nothing, gives an endpoint to exactly the instances that had one or could be made, keeps survivors as the same objects, removes exactly the vanished, and publishes the cached endpoints in strictly increasing instance order |
| EndpointCache.RepeatsOverwrite | gokit/sd/endpoint_cache.go:79-95 | a snapshot without repeats overwrites no endpoint; when the factory never fails, only such a snapshot does not |
| EndpointCache.RepeatLeaks | gokit/sd/endpoint_cache.go:79-95 | a run: from a new cache a snapshot naming one instance twice leaves an endpoint with a closer that is in no map, open and not removed, and publishes the other twice |
| EndpointCache.PublishedNames | gokit/sd/endpoint_cache.go:104-112 | the published list names the instances of the snapshot that have an endpoint, in its order |
| EndpointCache.PublishedInOrder | gokit/sd/endpoint_cache.go:104-112 | the published list of a sorted snapshot without repeats is in strictly increasing order |
| EndpointCache.FirstErrorMeans | gokit/sd/endpoint_cache.go:65-70 | which error the history's first error is: the one right after the last good snapshot, or the very first |
| EndpointCache.PromisedMeans | gokit/sd/endpoint_cache.go:121-145 | callers get the last good endpoints until the first error after them is as old as the timeout, with invalidation on, and that error from then on |
| EndpointCache.ErrorAdds | gokit/sd/endpoint_cache.go:61-71 | a further error changes neither the last good endpoints nor the first error |
| EndpointCache.Cache.UpdateGood | gokit/sd/endpoint_cache.go:53-58 | a good snapshot is reconciled and ends any error |
| EndpointCache.Cache.UpdateError | gokit/sd/endpoint_cache.go:60-71 | only with invalidation on, and only the first error since the last good snapshot, sets the error and the deadline |
| EndpointCache.Cache.Endpoints | gokit/sd/endpoint_cache.go:121-145 | returns what the history promises at that time: the endpoints until the deadline, then the error; past the deadline exactly the cached endpoints are removed |
| EndpointCache.Perform | gokit/sd/endpoint_cache.go:49-145 | one update or call keeps the cache in step with the story told from the events, and a call answers as that story promises |
| EndpointCache.Run | gokit/sd/endpoint_cache.go:49-145 | over every run of updates and calls, each call of Endpoints names what is promised by a story told from the events before it alone; without repeats every endpoint ever created is in the cache and open, or removed and, with a closer, closed once |
| Ordering.SortSorts | gokit/sd/endpoint_cache.go:75-76 | the snapshot is put in order |
| Ordering.LeqMeans | gokit/sd/endpoint_cache.go:75-76 | the order is lexicographic: a beginning comes first, else the smaller character at the first difference |
| Rng.SeedRand | gokit/utils/rand/rng.go:198-212 | for every int32, no intermediate value overflows and the result is 48271 times the argument modulo 2^31-1 |
| Rng.StepIsInvertible | gokit/utils/rand/rng.go:197-212 | multiplying by the inverse of 48271 undoes a step; a step gives 0 exactly from a multiple of 2^31-1 |
| Rng.StepIsInjective | gokit/utils/rand/rng.go:197-212 | two residues never step to the same one |
| Rng.LcgNext | gokit/utils/rand/rng.go:227-229 | the closed form 48271^k * s modulo 2^31-1 follows the loop |
| Rng.LcgNonZero | gokit/utils/rand/rng.go:227-239 | no value of the sequence of a non-zero starting value is zero |
| Rng.ValueFixesStart | gokit/utils/rand/rng.go:227-239 | one value of the sequence fixes the starting value modulo 2^31-1 |
| Rng.StartingValue | gokit/utils/rand/rng.go:219-227 | every int64 seed is reduced to the normalised non-zero starting value |
| Rng.RngSource.Seed | gokit/utils/rand/rng.go:215-241 | all 607 cells are filled, cell i from the values 21+3i, 22+3i and 23+3i of the sequence |
| Rng.SeededBits | gokit/utils/rand/rng.go:230-238 | with the constant taken out, a cell's low 20 bits are those of the third value, the next 20 the low 20 of the second xor the high 11 of the third, the top 24 the low 24 of the first xor the high 11 of the second |
| Rng.CongruentSeedsAgree | gokit/utils/rand/rng.go:219-241 | seeds that agree modulo 2^31-1 leave the same register |
| Rng.RngSource.Uint64 | gokit/utils/rand/rng.go:251-258 | the tap goes up and the feed down by one modulo 2^64; the sum modulo 2^64 of the cells they name modulo 607 is returned and written over the feed cell, all other cells unchanged |
| Rng.RngSource.Int63 | gokit/utils/rand/rng.go:244-246 | the same with the top bit masked off |
| Rng.FeedMeetsTap | gokit/utils/rand/rng.go:252-253 | within 2^64 calls, exactly the calls at which both counters name the same cell; the first is call 167 |
| Rng.CallThatDoubles | gokit/utils/rand/rng.go:251-258 | the output of such a call is even, whatever the seed |

## Left out

- HelloRequest, HelloReply and PersonRequest: smaller instances of the Person code.
- MarshalTo, the descriptors, the gRPC stubs and the texts of error messages.
- A nil entry in PersonsReply.Persons: Size counts it and the writer dereferences it; the model's persons are never nil.
- Pool.Pool.Put: the client is one that this pool created; a client of another pool is not modelled.
- Slots.Clients.Close: the idle sweep's goroutine takes its exit signal at once; waiting for it is not modelled.
- Slots.Clients.ClearIdleTimeOutClient: the bound by InitCap is for a sweep that nothing comes between; a bad Put between its count and its removal can take the pool one lower. Pool.Run has the removal of each slot as a step at any time, a superset of what the sweep does.
- Pool.Pool.Close, Pool.NewPool: what a program does after it recovers from a panic, with the locks still held, is not modelled.
- PoolClient.Settle: capacities above 2^53, where the conversion to float64 rounds, are taken as exact.
- Slots.Clients.NewClient: the tag is a counter of the pool without wrap-around, while the code has one 64-bit counter for all pools.
- GetConn, ValidCount and the unused clients.remove of the pool.
- Races on fields read without a lock, and on the cells of the register in Uint64: every operation is atomic.
- RpcPools.RpcPools.Close: the contract is about a call that returns; that it may not return is stated by RpcPools.CloseReturns, apart from the list and the map.
- RpcPools.RpcPools.RemoveIdleTimeOut: clock and call counts stand still during the sweep, and nothing else changes the list.
- The retry loop and the call counting around the remote calls in gokit/transport/pool/rpc/pools.go: plumbing over the selection.
- SetRetryTimes, SetIdleTimeOut, SetStrategy and the other options.
- EndpointCache.Cache.UpdateCache: sorting the caller's slice in place is not modelled; the snapshot is a value.
- EndpointCache.Cache.Endpoints: the check, the change of lock and the second check are one step.
- Rng.RngSource.Seed: the table of 607 constants is a parameter.
- gokit/transport/pool/grpc/pools.go and gokit/utils/lb/least.go: near-copies of the selection logic modelled here.
- Dialling, TLS, HTTP, gob and JSON codecs, Consul registration, logging, metrics and configuration.
