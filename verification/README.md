# HyperDHT node: a verified model

A Dafny model of the decision-making parts of a C++ HyperDHT node: the Kademlia routing table and query, the Noise IK
handshake, the encrypted stream and its multiplexer, the client's and server's connection bookkeeping, the wire codecs,
and the state a node keeps (requests, storage, health). Code that changes state step by step is a class or a method with
loops, proved against functions on values; what the system promises is then proved about those functions and about
invariants that every method keeps. Network events, timers, user callbacks and clock readings are method calls and
parameters, so "in every run" means after any sequence of calls.

`dafny verify dfyconfig.toml` checks the whole project.

## Components

| file | models |
|---|---|
| Wrappers, Bytes, Varints | options, byte and word types, little-endian integers and the variable-length integer |
| NodeIds, RoutingTable | XOR metric on bits, bucket index, 256 sorted buckets, `closest()`, `rebuild_with_id` |
| Addresses, AddressText | printing and parsing of IPv4 and IPv6 addresses; their texts character by character, and texts that were not printed |
| Closest, Queries | the K-nearest list and the iterative query with its frontier, slowdown, re-seed, `destroy()` and commits |
| QueryResults | what a query reports, told from its answers alone, and the order in which nodes are taken up |
| Commits, QueryRuns | when commits end a query, told from what their callbacks do; a run that completes too early |
| NoiseIK | cipher, symmetric and handshake state over primitives with three laws: Diffie-Hellman commutes, opening inverts sealing, a ciphertext is 16 bytes longer |
| NoiseTranscript | the bytes and keys of a handshake in terms of the primitives alone |
| SecretStream | framing, the exchange of headers, delivery before and after the connection, writing |
| StreamCodes | frame by frame, what each kind of frame leads to and with which code a stream ends |
| Protomux | varints, cork and uncork, the batch format, dispatch of incoming frames |
| MuxWire | the frames of the multiplexer as bytes, and which handler each one reaches |
| Connect, Server | the client's pipeline of relay handshakes and the server's four session tables |
| Compact, Messages, Fields | the cursor of the codec, the message formats as functions on bytes, and what the decoders hand back behind an error |
| MessageCodec, HandshakeCodec, DhtCodec | the two-pass encoder and the cursor-driven decoder of every message |
| WireLayouts | the formats of all messages byte by byte, and what the decoders refuse or keep of a message cut short |
| LruCache, Storage | the cache, and mutable and immutable storage over it |
| Rpc, Health | request life cycle with the congestion window, and the sliding-window health monitor |

The bucket size and result count K is an arbitrary constant of at least 2, which covers the 20 of the normal build and
the 10 of the embedded one (include/hyperdht/routing_table.hpp:20-24).

## Main results

| result | members |
|---|---|
| `closest()` is exactly the nearest nodes if and only if one zone is in order | RoutingTable.ClosestIsTrueIffCutZoneIs, ClosestByZones, ClosestMissesTheTarget |
| a walk that ends has closed its frontier; its list is the K nearest of everything learned; it is live if and only if its concurrency is positive | Queries.Query.FinishedWalkIsClosed, EveryHeardNodeIsAccounted, ReportsTheNearestOnce, CompletesWhenAllIsAnswered, Closest.PushKeepsKNearest |
| the results of a query carry just what the first successful answers with their ids brought; each commit is a result with a token | QueryResults.ResultsAreTheNearestAnswers, CommitsAreTheTokens |
| every turn of a walk leads to one exact new state | Queries.Query.Start, OnVisitResponse, OnVisitTimeout |
| a query with commits is done, and done too early, exactly as its commit callbacks say | Queries.Query.DoCommit, Commits.EndsInExactly, QueryRuns.CompletesTooEarly |
| two honest ends of a handshake complete with crossed keys if and only if no DH result is zero; no nonce is used twice | NoiseIK.HonestEndsAgree, HandshakeState.NoncesAreFresh |
| the messages and keys of that run are those of the IK pattern, written out in hash, HMAC, DH and AEAD calls | NoiseTranscript.HonestBytes, HonestKeys |
| a peer's stream in any chunks delivers exactly what has come, once and in order; a refused write silences the rest | SecretStream.DeliversWhatHasCome, DeliversAFront, ChunkingIsIrrelevant, DeliversUpToARefusal |
| corking changes nothing, up to an exact limit; each frame, alone or in a batch, reaches the handler of its type or channel | Protomux.CorkedChannelsMeanTheirFrames, CorkIsTransparent, MuxWire.ControlFrames, DataFrames, OneInABatch |
| every message's two encoding passes agree, without an error, and its decoder gives it back; its bytes are those of the format | MessageCodec, HandshakeCodec, DhtCodec: all Write, Encode and Read methods; WireLayouts |
| the client's attempt is bounded, ends once, with the code that its history calls for, and never waits for nothing | Connect.ConnState.PipelineIsBounded, ExhaustionHasCompleted, NeverStuck |
| the server's tables stay in step; a session is connected at most once | Server.Server.DedupIsNeverStale, EmittedAtMostOnce |
| a stored value is the last accepted put, signed for its key, and its sequence number never decreases | Storage.Store.HandleMutablePut, HandleMutableGet |
| the health monitor computes the verdict on the whole history, and exactly when 32-bit sums spoil it | Health.HealthMonitor.Update, VerdictExactly, BadTicksExactly, EvaluatedExactly, OfflineExactly |
| a request is in one place, sent a bounded number of times and called back at most once | Rpc.RpcSocket.LifeCycle |

## What the proofs brought out

Where the code and its comments differ, the model follows the code.

- `closest()` does not return the nearest nodes in general. Within the target's bucket, within any single bucket below
  it, and among all buckets beyond it, nodes are taken in storage order until enough are collected.
  `ClosestMissesTheTarget` gives a table where the asked-for node itself is missed; `ClosestByZones` and
  `ClosestIsTrueIffCutZoneIs` say exactly what holds.
- The bucket-full callback of the routing table is made although there is room exactly for a node that is already
  stored (`RoutingTable.Table.Add`, src/routing_table.cpp:113-131); `FullWithOneNode` is such a table.
- A comment says that the query does not implement the slowdown (src/query.cpp:155-158); the code does. It takes effect
  only after the first burst, and where the concurrency is below 3 it raises it to 3 (`SlowdownRaisesExactly`).
- A walk with a concurrency of 0 or less never visits anything: after `start()` it is stuck with nodes on the stack
  exactly in that case (`StartStallsExactly`), and a query that is still running has nothing in flight exactly in that
  case (`CompletesWhenAllIsAnswered`).
- Completion does not wait for all commits (src/query.cpp:530-548). A commit callback ends the query exactly if it
  destroys it, which does not stop the remaining commits, or if then every commit sent so far has been answered
  (`EndsInExactly`); that is too early exactly if it is not the last one, or destroys the query with a commit unanswered
  (`DoCommit`). So an answer from inside the first of several callbacks ends the query too early
  (`FirstAnsweredAtOnce`, `CompletesTooEarly`), one from inside the second alone ends nothing (`SecondAnsweredAtOnce`).
- The oversized-frame branch of the stream parser never runs (`NoFrameIsOversized`).
- When the transport reports the header as written after `destroy()`, `on_connect` still fires, exactly if the stream
  was not connected and the peer's header has come (`AckAfterDestroyExactly`, `ConnectsAfterDestroy`,
  src/secret_stream.cpp:490-494, 733-737).
- A write that the transport refuses has already moved the cipher on. The output has one frame for each accepted message
  exactly if there was no such refusal (`OneFramePerWriteExactly`), and with one the peer delivers only what was sent
  before it (`DeliversUpToARefusal`).
- A corked batch whose messages plus channel switches exceed 1024 loses its tail at the receiver (`CorkIsTransparent`,
  `CorkedChannelsMeanTheirFrames`). A frame that is only a channel id would garble the rest of a batch
  (`EmptyPayloadBreaksABatch`); no channel writes such a frame (`ChannelFramesArePlain`).
- On the server the stale-entry branch and the size cap of the dedup table never run. A handshake repeated while its
  firewall decision is pending, or by a client that is reachable directly, opens a second session
  (`RepeatedWhilePending`, `RepeatedByOpenClient`).
- In the congestion window the clamp never fires; the branch for destroyed requests in the queue never runs, because a
  queued request cannot be cancelled.
- A cache exceeds its maximum size exactly if that is 0: it then holds one entry (`LruCache.Put`).
- The sums of the health monitor are 32-bit. A tick is judged by its majority, a window evaluated by its activity and the
  node taken offline by its silence exactly under the conditions of `BadTicksExactly`, `EvaluatedExactly` and
  `OfflineExactly`; `OverflowLooksBad` and `OverflowGoesOffline` are histories that break them.
- A message that fails to decode is not refused as such by most decoders: they hand back the fields before the error,
  and a mutable put is judged by them (`Fields.PutFields`).
- The protocol name of the handshake is 35 bytes long, not 37 as a comment says (src/noise_wrap.cpp:338).

## Model

| member | source | states |
|---|---|---|
| NodeIds.BucketIndex | src/routing_table.cpp:19-29 | the index is the length of the common bit prefix of the two ids (defined from the first differing bit), and 256 exactly for equal ids |
| NodeIds.CompareDistance | src/routing_table.cpp:31-39 | the sign tells which id is nearer in the XOR metric, defined on bits: where the two first differ, the nearer one agrees with the target; 0 exactly for equal ids |
| NodeIds.FullPrefixIffEqual | src/routing_table.cpp:19-29 | only equal ids have no differing bit |
| NodeIds.NearerTotal | src/routing_table.cpp:31-39 | XOR distances never tie: of two different ids exactly one is nearer to any target |
| NodeIds.NearerTransitive | src/routing_table.cpp:31-39 | being nearer to a target is transitive, so it is a strict total order |
| NodeIds.LongerPrefixIsNearer | src/routing_table.cpp:19-39 | a longer common prefix with the target means a smaller distance |
| NodeIds.PrefixThroughLocal | src/routing_table.cpp:19-29 | the bucket of a node under the local id, compared with the target's bucket d, fixes how many bits it shares with the target: its own bucket index below d, exactly d beyond d, more than d in d |
| NodeIds.IdLessIsLexicographic | src/routing_table.cpp:45-63 | the order of a bucket compares bytes from the front: the first differing byte decides |
| RoutingTable.FindIndex | src/routing_table.cpp:45-63 | binary search finds an id exactly when the bucket stores it, and otherwise gives the one position at which inserting keeps the order |
| RoutingTable.BucketAdd | src/routing_table.cpp:65-75 | a node is added exactly when its id is new and fewer than K are stored; the bucket is then the sorted insertion, otherwise unchanged |
| RoutingTable.SortedInsertKeepsOrder | src/routing_table.cpp:65-75 | inserting a new id keeps the strict order, adds exactly that node and loses none |
| RoutingTable.BucketRemove | src/routing_table.cpp:77-84 | the entry with the id, and no other, leaves; the result says whether there was one |
| RoutingTable.BucketGet | src/routing_table.cpp:86-92 | a node is returned exactly when one with that id is stored, and it is that one |
| RoutingTable.Table.Add | src/routing_table.cpp:113-131 | the whole new table: added exactly when the id is not our own, is new in its bucket and the bucket has room; the full-bucket callback is made for every other foreign id, and although the bucket has room exactly if the id is stored in it; keeps the invariant that every bucket is strictly sorted, holds at most K nodes, each in the bucket of its own index, and size_ is their sum |
| RoutingTable.FullWithOneNode | src/routing_table.cpp:113-131 | a table that reports a full bucket holding a single node |
| RoutingTable.Table.Remove | src/routing_table.cpp:133-142 | exactly the entry of that id leaves, the size follows, the invariant is kept |
| RoutingTable.Table.Get | src/routing_table.cpp:144-148 | an id is found exactly when some bucket of the whole table stores it, not only the one searched |
| RoutingTable.Table.CollectUp | src/routing_table.cpp:167-179 | the first phase of closest(): bucket d and those beyond it, in order, cut off at count |
| RoutingTable.Table.CollectDown | src/routing_table.cpp:181-185 | the second phase: the buckets below d in descending order, after what was already collected, cut off at count |
| RoutingTable.Table.ClosestNodes | src/routing_table.cpp:160-197 | closest() returns the first count nodes of the visiting order, sorted by distance |
| RoutingTable.SortByDistanceSorts | src/routing_table.cpp:187-191 | sorting distinct ids by distance gives a strictly ascending permutation |
| RoutingTable.EarlierZoneIsNearer | src/routing_table.cpp:164-185 | with zones being the target's bucket d, all buckets beyond d together, and each bucket below d: every node of an earlier zone is nearer to the target than every node of a later one |
| RoutingTable.VisitOrderIsComplete | src/routing_table.cpp:164-185 | the visiting order lists every stored node exactly once, zone after zone, and never the local id |
| RoutingTable.VisitPosition | src/routing_table.cpp:164-185 | where closest() comes to each stored node: the target's bucket, the buckets beyond it in ascending order, those below it in descending order, each as it is stored |
| RoutingTable.ClosestByZones | src/routing_table.cpp:160-197 | on every table closest() returns min(count, size) stored nodes in strictly ascending distance; a stored node left out although nearer than a returned one lies in the same zone; nothing is left out when count >= size |
| RoutingTable.ClosestIsTrueIffCutZoneIs | src/routing_table.cpp:160-197 | if something is cut off, the result is the truly nearest nodes exactly when, in the one zone the cut runs through, every node before the cut is nearer than every node after it; always so when the cut falls between two zones |
| RoutingTable.ClosestMissesTheTarget | src/routing_table.cpp:160-197 | a counterexample family: with two nodes of one bucket, asking for the single node closest to the larger id returns the other one |
| RoutingTable.TwoNodesOfOneBucketExist | src/routing_table.cpp:160-197 | the counterexample family is not empty |
| RoutingTable.ClosestOfAll | src/routing_table.cpp:160-197 | with count >= size the result is the truly nearest set |
| RoutingTable.Table.RebuildWithId | src/routing_table.cpp:217-250 | after a rebuild every bucket holds exactly the first K of the old nodes, in the order of the old buckets, that are not the new id and map there under it; the callback is suppressed meanwhile and restored |
| RoutingTable.RefilledStep | src/routing_table.cpp:242-246 | re-adding one more node, accepted or not, keeps every bucket at the first K of the nodes re-added so far that map there |
| Addresses.HostString4 | src/compact.cpp:314-324 | the four octets in decimal, joined by dots |
| Addresses.FromString4 | src/compact.cpp:326-342 | parsing token by token, with every error (no digit, more than 255) giving the zero address |
| Addresses.Ipv4RoundTrip | src/compact.cpp:314-342 | parsing the printed form of any IPv4 address returns it |
| Addresses.HostString6 | src/compact.cpp:374-399 | the eight groups in lower-case hexadecimal without leading zeros, joined by colons |
| Addresses.ParseHex | src/compact.cpp:434-441 | a group of hexadecimal digits, truncated to 16 bits at each step; nothing for another character |
| Addresses.ParseGroupText | src/compact.cpp:428-445 | the groups between colons, or nothing if one of them is malformed |
| Addresses.StoreGroups | src/compact.cpp:458-468 | the first eight groups become sixteen bytes, high byte first; missing groups are zero |
| Addresses.FindDoubleIsFirst | src/compact.cpp:414-423 | the search for a double colon finds the first one, and the end of the text only if there is none |
| Addresses.FromString6 | src/compact.cpp:401-472 | both branches of the parser, with and without a double colon, including malformed input |
| Addresses.Ipv6RoundTrip | src/compact.cpp:374-472 | in the printed form of any IPv6 address no two colons are side by side, and parsing it returns the address (the eight-group form of section 2.2 of RFC 4291) |
| Addresses.CompressedGroups | src/compact.cpp:447-461 | in a text with a double colon, also in front or at the end, each of the eight 16-bit groups of the address is the one written before the gap, the one written behind it counted from the end, or zero; with eight or more written the first eight count |
| Addresses.AddressKeyInjective | src/query.cpp:131-133 | the string under which a query remembers an address determines host and port |
| AddressText.OctetText | src/compact.cpp:314-324 | an octet is printed in decimal without leading zeros, digit by digit |
| AddressText.GroupText | src/compact.cpp:380-396 | a group is printed in lower-case hexadecimal without leading zeros, digit by digit |
| AddressText.Loopback | src/compact.cpp:314-342 | the loopback address and its text, in both directions |
| AddressText.NumberText | src/compact.cpp:333-337 | a number is read up to the first other character, if it has a digit and fits 32 bits |
| AddressText.HexText | src/compact.cpp:430-441 | a group is read modulo 2^16, its digits in either case, and any other character spoils it |
| AddressText.AnyOctets | src/compact.cpp:326-342 | any text of tokens between dots: one that is no octet among the first four gives the zero address with port 0; otherwise the first four count and missing ones are zero |
| Closest.PushClosest | src/query.cpp:399-428 | the in-place bubbling, with its duplicate branch and the cut at K, computes the insertion into the sorted list |
| Closest.PushKeepsKNearest | src/query.cpp:399-428 | the list stays strictly ascending and holds exactly the K nearest distinct ids of everything learned, each with the first reply that carried it; once full it stays full and its last entry never moves farther away |
| Closest.KNearestIsUnique | src/query.cpp:399-447 | what was learned determines the list |
| Queries.Query.AddPending | src/query.cpp:131-142 | pushed exactly when the address is unseen, fewer than 4096 have been seen and the filter accepts it |
| Queries.Query.AddBootstrap | src/query.cpp:75-81 | a bootstrap address is offered with the zero id at any time, before the start, during the walk and after it; all invariants are kept, and what is added after the end is told apart |
| Queries.Query.SeedFromTable | src/query.cpp:105-116 | exactly as many nodes as are missing to K pending ones come from the table's closest(), offered last one first, so that the nearest ends on top of the stack; nothing if K are pending; the position of the walk afterwards is determined |
| Queries.Query.Start | src/query.cpp:61-73 | the position of the walk after the first turn, down to each visited and skipped node, as a function of seeds, table and concurrency; it has ended exactly if then nothing is pending or in flight, with the commits as DoCommit says; the invariants of the whole query hold |
| Queries.StartStallsExactly | src/query.cpp:61-73 | after start() there is pending work and nothing in flight exactly when the concurrency is 0 or less and the stack is not empty |
| Queries.Query.PopNext | src/query.cpp:183-197 | the top of the stack is visited if it has no id or is closer than the k-th result, otherwise skipped for good |
| Queries.Query.VisitPending | src/query.cpp:183-197 | nodes leave the stack from the top until enough visits are in flight or it is empty; the position afterwards is that of the recursive definition, whose visits and skips are told by PoppedAre |
| Queries.PoppedAre | src/query.cpp:183-197 | what a turn takes is the top part of the stack; exactly those of it worth visiting were visited, from the top, and the others skipped for good; the rest stays |
| Queries.PoppedInFlight | src/query.cpp:183-197 | after the pop loop the visits in flight are the limit, or those before it and everything on the stack worth visiting |
| Queries.PoppedNoMore | src/query.cpp:183-197 | the pop loop takes no more than it needs: above every node it took, too few were worth visiting |
| Queries.SlowdownRaisesExactly | src/query.cpp:181-204 | a turn puts more in flight than the concurrency exactly if that is below 3, the slowdown is on and enough on the stack is worth visiting |
| Queries.Query.Dispatch | src/query.cpp:181-204 | the first half of read_more: the exact position after it, with the slowdown taking effect only after the first burst; for a positive concurrency something is in flight as long as anything is pending |
| Queries.NothingIsDispatched | src/query.cpp:181-204 | with a concurrency of 0 or less a turn visits and skips nothing |
| Queries.Query.AcceptResponse | src/query.cpp:281-352 | everything up to and including the reply callback, which gets the sender's address and the answer's id, token, value and closer nodes; the slowdown ends exactly when, on seeds alone, as many answers as the concurrency have come back |
| Queries.Query.ReadMore | src/query.cpp:178-237 | the exact position after a turn: visits, then, with nothing pending or in flight, no table asked and fewer than K/4 successes, the table once and a second turn, never a third; afterwards the query is finished or between events |
| Queries.Query.MaybeFinish | src/query.cpp:472-484 | the walk ends exactly when nothing is in flight and nothing pending |
| Queries.Query.Destroy | src/query.cpp:486-511 | the pending stack is dropped, and completion is reported at once, or after the reply being dispatched, too early exactly if a commit is then to be sent or unanswered, as one always is when it comes between the events of a committing query; a second call does nothing |
| Queries.Query.FireDoneOnce | src/query.cpp:513-518 | the completion callback is made at most once, with the result list of that moment |
| Queries.Query.Commit | src/query.cpp:533-541 | one reply goes to the commit callback, which may answer any sent commits and destroy the query in any order of steps: which commits stay unanswered, whether the query is done after it and whether that was too early follow exactly from those steps |
| Queries.Query.SendCommits | src/query.cpp:530-542 | the commits are exactly the results with a token, in order of distance; the query is done after them exactly if one of the callbacks ends it, which does not stop the rest, and completion came too early exactly if that was not the last one or destroyed the query with a commit unanswered |
| Queries.Query.DoCommit | src/query.cpp:520-549 | afterwards all commits were made and the query is done exactly if there were none or a callback ended it, and otherwise waits for a commit reply; completion was reported with commits still to be sent or unanswered exactly under the condition of SendCommits |
| Queries.Query.CommitReply | src/query.cpp:535-541 | the last outstanding commit reply completes the query, and between events it never does so too early |
| Commits.EndsInExactly | src/query.cpp:530-541 | a callback ends the query exactly if it destroys it or if then every commit up to its own has been answered |
| Commits.FirstAnsweredAtOnce | src/query.cpp:530-541 | with two or more commits an answer from inside the first callback ends the query too early |
| Commits.SecondAnsweredAtOnce | src/query.cpp:530-541 | an answer from inside the second callback alone ends nothing, and leaves the first commit unanswered |
| Commits.LastAnswerEnds | src/query.cpp:530-548 | when no commit is unanswered behind the last callback, a callback has ended the query, so the check behind the loop acts only if nothing was sent |
| Commits.EarlyStep | src/query.cpp:530-542 | one more callback keeps the condition for a too early completion |
| QueryRuns.CompletesTooEarly | src/query.cpp:520-549 | a run from construction in which completion is reported while the second of two commits is unanswered |
| Queries.Query.RecordAnswer | src/query.cpp:281-335 | state, counters, result list and frontier after a response: the closer nodes with a port, not ourselves, are offered in order |
| Queries.Query.FollowCloser | src/query.cpp:281-335 | an answer leaves the walk invariant intact: its address is answered and its closer nodes are covered |
| Queries.Query.DispatchReply | src/query.cpp:343-352 | a destroy() from inside the reply callback postpones completion |
| Queries.Query.OnVisitResponse | src/query.cpp:273-364 | the callback gets the sender's address and the answer's id, token, value and closer nodes; the exact position after a response: the answer recorded, its closer nodes offered, then the turn with its visits and skips; the walk has ended exactly if then nothing is pending or in flight, with the commits as DoCommit says; nothing but the late answer after the end; a destroy() in the callback stops the walk; the invariants of the whole query hold in every case |
| Queries.Query.OnVisitTimeout | src/query.cpp:375-386 | the exact position after a timeout: the address is down and counted as an error, then the turn with its visits and skips, and its end as for a response; the invariants hold |
| Queries.OfferAllKeepsWalk | src/query.cpp:131-142 | offering any list of nodes keeps each seen address in exactly one place: on the stack, in flight, answered, timed out or skipped |
| Queries.OfferAllGrows | src/query.cpp:131-142 | offering never forgets, never exceeds 4096 seen addresses, and below that cap every accepted node has been seen |
| Queries.AnswerIsCovered | src/query.cpp:326-335 | below the cap every acceptable closer node of every answer so far has been seen |
| Queries.PushedStep | src/query.cpp:285-324 | an answer keeps the list the K nearest of everything learned, the counters right, and every node skipped earlier justified by the new list |
| Queries.Query.FinishedWalkIsClosed | src/query.cpp:178-386 | frontier closure: when a walk has ended by itself, every address seen until then was answered, timed out or skipped, and any seen later came from add_bootstrap; a skipped node is no nearer the target than the last of K results; unless the cap of 4096 was reached, every acceptable closer node of every answer had been seen; and it did not end with fewer than K/4 successes without asking the routing table |
| Queries.Query.EveryHeardNodeIsAccounted | src/query.cpp:178-447 | the result over all that was heard of: if seeds and answers carried the ids that follow from their addresses and the cap was not reached, every acceptable closer node of every answer of a finished walk is reported, or is no nearer than the last of K results, or timed out, or answered with an error or without an id |
| Queries.Query.VisitsAreBounded | src/query.cpp:242-266 | in every run each address is visited at most once, at most 4096 in all |
| Queries.Query.ReportsTheNearestOnce | src/query.cpp:513-518 | at any time the list is the K nearest distinct ids of everything learned; completion is reported at most once, with that list |
| Queries.Query.CompletesWhenAllIsAnswered | src/query.cpp:472-549 | for a positive concurrency a running query never idles, has at least its concurrency in flight while anything is pending (min(concurrency, 3) under slowdown; not before the next event if a bootstrap node was just added), and is done and reported exactly once when every visit and commit has been answered; for any other it never visits anything: a running query has nothing in flight exactly if its concurrency is 0 or less |
| QueryResults.ResultsAreTheNearestAnswers | src/query.cpp:288-443 | the results of a query in terms of its answers alone: at most K in strictly ascending distance, each with the address, token, value and closer nodes that the first successful answer with its id brought; an answer whose id is not among them is farther away than all of K |
| QueryResults.FirstAnswer | src/query.cpp:288-324 | the reply listed for an id comes from the first successful answer that names it |
| QueryResults.CommitsAreTheTokens | src/query.cpp:520-542 | once a walk has ended, a commit has been sent for each result with a token and for nothing else, nearest first |
| QueryResults.CountersAreRight | src/query.cpp:292-298 | successes are the answers without an error, errors the other answers and the timeouts |
| QueryResults.StatesAreRight | src/query.cpp:281-283 | an address is DONE exactly once it has answered and DOWN exactly once it has timed out |
| QueryResults.TakenInOrder | src/query.cpp:131-142 | the stack grows by the nodes taken up, in the order in which they were offered |
| QueryResults.TakenAreSeen | src/query.cpp:131-142 | the seen map grows by just their addresses |
| QueryResults.TakenArePending | src/query.cpp:131-142 | what is new in the seen map is PENDING, and every other state stays |
| QueryResults.TakenExactly | src/query.cpp:131-142 | a node is taken up exactly if its address is unseen by then, fewer than 4096 have been seen by then and it passes the filter |
| QueryResults.CandidatesInOrder | src/query.cpp:326-335 | of the closer nodes of an answer those with a port whose id is not our own are offered, in their order, each with the id of its address |
| QueryResults.BackwardsIs | src/query.cpp:61-117 | seeds and table nodes are offered last one first |
| QueryResults.SeedsAreOffered | src/query.cpp:61-74 | the caller's seeds are offered last one first, and the table is asked if fewer than K are then on the stack |
| QueryResults.TableIsOffered | src/query.cpp:105-117 | the table gives as many nodes as the stack lacks, and they are offered farthest first, so that the nearest is on top |
| QueryResults.TableIsAskedExactly | src/query.cpp:178-237 | a walk asks the table exactly if it has not done so, fewer than K/4 answers were successful, nothing is in flight and nothing on the stack is worth visiting |
| QueryResults.TurnKeeps | src/query.cpp:178-237 | a turn keeps the state of every address seen; it starts the slowdown only while nothing has come back and the table was not asked, and never ends it |
| QueryResults.TimeoutThenOn | src/query.cpp:375-386 | a timeout marks its address DOWN and leaves every other state and the slowdown as they are |
| QueryResults.AnswerThenOn | src/query.cpp:281-341 | an answer marks its address DONE, leaves every other state as it is, and ends the slowdown exactly once as many answers and timeouts as the concurrency have come back on seeds alone |
| NoiseIK.NonceInjective | src/noise_wrap.cpp:169-178 | two counters share a nonce exactly when they agree modulo 2^32 |
| NoiseIK.MixKeyAgrees | src/noise_wrap.cpp:278-295 | whichever end computes it, mixing in a DH result gives the same symmetric state, the rejected zero result included |
| NoiseIK.SealOpens | src/noise_wrap.cpp:297-308 | what one end seals the other opens, both are left in the same state, and the ciphertext is 16 bytes longer |
| NoiseIK.CipherState.EncryptWithAd | src/noise_wrap.cpp:238-247 | without a key the text passes through, at the last counter nothing is produced, otherwise the nonce is used once and counted; no nonce ever repeats within a key's epoch |
| NoiseIK.CipherState.DecryptWithAd | src/noise_wrap.cpp:249-257 | the nonce advances only if the message opens; a message shorter than a tag is refused |
| NoiseIK.SymmetricState.MixHash | src/noise_wrap.cpp:268-276 | the digest absorbs the data (MixHash, section 5.2 of the Noise specification) |
| NoiseIK.SymmetricState.MixKey | src/noise_wrap.cpp:278-295 | a zero DH result only marks the state corrupt; otherwise the state becomes what NoiseTranscript.KeysFrom says in terms of the primitives |
| NoiseIK.SymmetricState.EncryptAndHash | src/noise_wrap.cpp:297-301 | the ciphertext is mixed into the digest it was bound to |
| NoiseIK.SymmetricState.DecryptAndHash | src/noise_wrap.cpp:303-308 | the ciphertext is mixed in even when it does not open |
| NoiseIK.HandshakeState.constructor | src/noise_wrap.cpp:331-359 | both sides start from the padded protocol name, the prologue and the responder's static key |
| NoiseIK.HandshakeState.Finish | src/noise_wrap.cpp:421-430 | after the second message the hash is kept and the two keys are taken from the final chaining key, written out in HMAC calls: the initiator sends under the first and receives under the second, the responder the other way round |
| NoiseIK.HandshakeState.WriteFirst | src/noise_wrap.cpp:369-391 | tokens e, es, s, ss of the first message |
| NoiseIK.HandshakeState.WriteSecond | src/noise_wrap.cpp:393-413 | tokens e, ee, se of the second message |
| NoiseIK.HandshakeState.Send | src/noise_wrap.cpp:361-433 | every branch of send(): out of turn, complete or corrupt calls change nothing, a corrupt exchange fails for good, otherwise the message and the new state |
| NoiseIK.HandshakeState.ReadStatic | src/noise_wrap.cpp:463-474 | the remote static key is taken only if it opens |
| NoiseIK.HandshakeState.ReadFirst | src/noise_wrap.cpp:450-474 | tokens of a received first message, with each failure and what it leaves behind |
| NoiseIK.HandshakeState.ReadSecond | src/noise_wrap.cpp:476-494 | tokens of a received second message, likewise |
| NoiseIK.HandshakeState.Recv | src/noise_wrap.cpp:435-516 | every branch of recv(), with the state after each failure |
| NoiseIK.HandshakeState.NoncesAreFresh | src/noise_wrap.cpp:230-247 | after any sequence of calls no nonce was used twice to encrypt under one key |
| NoiseIK.FirstMessageAgrees | src/noise_wrap.cpp:361-504 | after the first message both ends are in the same symmetric state, the payload is delivered and the responder knows the initiator's static key, exactly when neither of its two DH results is zero; otherwise both are corrupt |
| NoiseIK.SecondMessageAgrees | src/noise_wrap.cpp:361-516 | after the second message both ends are complete with crossed keys, equal hashes and the payload delivered, exactly when neither of its two DH results is zero; otherwise both are corrupt |
| NoiseIK.HonestEndsAgree | src/noise_wrap.cpp:331-516 | for all keys, prologues and payloads two honest ends complete after two messages exactly when none of the four DH results is zero; then each sends with the other's receiving key, the hashes agree, both payloads arrive and the responder has learned the initiator's key; otherwise both end corrupt |
| NoiseTranscript.HonestBytes | src/noise_wrap.cpp:331-516 | the messages of an honest run as bytes, in terms of the primitives and the padded protocol name alone: the initiator's static key sealed under the key from es, its payload under es and ss, the responder's under all four results, each chained to those before; what is sealed is bound to prologue, responder key and everything sent before |
| NoiseTranscript.HonestKeys | src/noise_wrap.cpp:112-140 | the transport keys of that run: the two outputs for the chaining key that all four DH results have gone into, crossed between the ends |
| NoiseTranscript.KeysFrom | src/noise_wrap.cpp:278-295 | a DH result that is not all zeros extends the chaining key it finds and gives a new cipher key with counter 0; one of all zeros only marks the state corrupt |
| NoiseTranscript.FirstMessage | src/noise_wrap.cpp:361-430 | the bytes of the first message and the state behind it, for any sender |
| NoiseTranscript.SecondMessage | src/noise_wrap.cpp:395-430 | the bytes of the second message, the handshake hash and the two keys behind it, for any sender |
| NoiseTranscript.NonceBytes | src/noise_wrap.cpp:169-178 | the nonce: four zero bytes, the counter modulo 2^32 in little-endian order, four zero bytes |
| NoiseTranscript.CipherLimits | src/noise_wrap.cpp:238-256 | without a key everything passes; with one nothing is sealed from counter 0xFFFFFFFF on, nothing shorter than 16 bytes opens, and the counter moves on only with success |
| NoiseTranscript.TurnsAreKept | src/noise_wrap.cpp:361-440 | a call out of turn, or on a complete or corrupt handshake, changes nothing and gives nothing |
| NoiseTranscript.RefusedIsCorrupt | src/noise_wrap.cpp:435-516 | in its turn a message that is not taken leaves the handshake corrupt, one that is taken advances it |
| NoiseTranscript.ShortIsRefused | src/noise_wrap.cpp:435-516 | a first message of less than 96 bytes and a second of less than 48 are refused |
| NoiseTranscript.ZeroIsNotSent | src/noise_wrap.cpp:361-420 | a sender whose key exchange gives all zeros sends nothing and is corrupt |
| NoiseIK.LawsCanBeMet | src/noise_wrap.cpp:180-216 | primitives with the assumed laws exist, with no DH result zero |
| NoiseIK.SentKeepsConsistent | src/noise_wrap.cpp:361-433 | complete and corrupt exclude each other, and complete means that both messages have passed; send() keeps this |
| NoiseIK.ReceivedKeepsConsistent | src/noise_wrap.cpp:435-516 | recv() keeps it too |
| NoiseIK.CompleteAndCorruptAreAbsorbing | src/noise_wrap.cpp:361-531 | over every sequence of calls, once complete or corrupt nothing changes but the unused ephemeral key |
| NoiseIK.LogExtended | src/noise_wrap.cpp:238-247 | a use of the next nonce below the counter limit repeats no earlier nonce of the same key |
| SecretStream.Uint24RoundTrip | src/secret_stream.cpp:54-64 | a 24-bit length is read back from its three bytes, whatever follows |
| StreamCodes.LengthBytes | src/secret_stream.cpp:54-64 | the three bytes of a length, low byte first, written and read |
| SecretStream.BufIsIgnored | src/secret_stream.cpp:694-731 | handling a frame neither looks at nor changes the bytes behind it |
| SecretStream.DrainEarly | src/secret_stream.cpp:647-692 | extracting frames before more bytes arrive makes no difference to extracting them after |
| SecretStream.FeedConcat | src/secret_stream.cpp:647-692 | feeding two chunks equals feeding their concatenation, in every state, failures included |
| SecretStream.ChunkingIsIrrelevant | src/secret_stream.cpp:647-731 | any split of a byte stream into chunks leads to the same frames, the same failure and the same bytes left over as one pass |
| SecretStream.NoFrameIsOversized | src/secret_stream.cpp:661-672 | a 24-bit length never exceeds the limit, so the branch with code -9 never runs |
| SecretStream.AckDelivers | src/secret_stream.cpp:733-748 | when our header is acknowledged, everything that waited is delivered once, in order |
| SecretStream.AckAfterDestroyExactly | src/secret_stream.cpp:485-501 | a header acknowledged after destroy() fires on_connect exactly if the stream was not connected and the peer's header has come; it stays destroyed, with its error, and delivers nothing |
| SecretStream.ConnectsAfterDestroy | src/secret_stream.cpp:485-501 | a run in which a destroyed stream connects |
| SecretStream.DeliversWhatHasCome | src/secret_stream.cpp:647-748 | any front of a peer's stream, cut into any chunks, with the acknowledgement of our own header at any point between them: never rejected for a length, and delivered are exactly the visible ones of the messages that have come completely, once and in order, with the rest left in the buffer; with more than 64 complete before the acknowledgement the stream is destroyed with code -7 and nothing is delivered |
| SecretStream.DeliversAFront | src/secret_stream.cpp:647-748 | whatever the message callbacks do, what is delivered of any front of a peer's stream is a front of its visible messages |
| SecretStream.DeliversOnceInOrder | src/secret_stream.cpp:647-748 | in particular a whole stream delivers every visible message |
| SecretStream.WriteAppends | src/secret_stream.cpp:140-174 | one more sealed message adds its one frame to the output if it was sent and nothing if it was refused |
| SecretStream.OneFramePerWriteExactly | src/secret_stream.cpp:527-569 | the output is the header and one frame for each sealed message exactly if the transport refused none |
| SecretStream.DeliversUpToARefusal | src/secret_stream.cpp:178-208 | when a peer's transport refused some of its sealed messages and none of them opens as one with a lower number, what is delivered of its stream is exactly what is visible before the first refused one |
| SecretStream.StreamLawsCanBeMet | src/secret_stream.cpp:140-208 | a configuration keeps all the assumed laws, for every run of up to 2^136 messages |
| SecretStream.Duplex.Start | src/secret_stream.cpp:439-466 | the header frame goes out first, once; a refusal by the transport destroys the stream with its code |
| SecretStream.Duplex.OnHeaderWritten | src/secret_stream.cpp:485-501 | a written header counts as acknowledged; after destroy() it fires on_connect exactly if the status is not negative, the peer's header has come and the stream was not connected; a failed one destroys the stream with the status |
| SecretStream.Duplex.Destroy | src/secret_stream.cpp:605-618 | only the first error counts |
| SecretStream.Duplex.MaybeFireConnect | src/secret_stream.cpp:733-748 | on_connect fires once, when both headers have passed; then the waiting messages are handed over until one of the callbacks destroys the stream |
| SecretStream.Duplex.Decrypt | src/secret_stream.cpp:178-208 | before the header nothing opens; short and forged messages are dropped without moving the cipher, empty ones are keepalives when those are on |
| SecretStream.Duplex.HandleFrame | src/secret_stream.cpp:694-731 | header or message, queued before the connection (at most 64, then code -7), delivered after it |
| SecretStream.Duplex.TryExtractFrame | src/secret_stream.cpp:658-692 | one frame at most is taken; a zero length is fatal, an incomplete frame waits |
| SecretStream.Duplex.ProcessIncomingBytes | src/secret_stream.cpp:647-656 | the loop over arriving bytes computes the one-pass function |
| SecretStream.Duplex.Write | src/secret_stream.cpp:527-569 | each result, -1, -2, -3, -4 and the refusal of the transport, under its own condition in the source's order; what was sealed counts even if refused, and the output stays one header and one frame per message sent |
| StreamCodes.FirstFrame | src/secret_stream.cpp:694-708 | the first frame: another length than 56 ends the stream with -5, a wrong id or refused header with -6, a good one is taken and connects if our own header is out |
| StreamCodes.IgnoredFrame | src/secret_stream.cpp:709-712 | a frame that is too short or does not open changes nothing; an empty message with keepalive on only moves the cipher on |
| StreamCodes.OpenedFrame | src/secret_stream.cpp:714-731 | a message is delivered when connected and waits otherwise; the 65th to wait ends the stream with -7, a callback that destroys it with 0 |
| StreamCodes.ZeroLength | src/secret_stream.cpp:658-686 | a length of zero ends the stream with -10; a frame that is not complete waits |
| StreamCodes.NothingAfterDestroy | src/secret_stream.cpp:605-611 | a destroyed stream takes no frame and keeps its first error |
| StreamCodes.ReplayStops | src/secret_stream.cpp:738-746 | what waited is handed over in order up to the message whose callback destroys the stream, and no further |
| Varints.LeRoundTrip | src/compact.cpp:27-59 | a number that fits is read back from its little-endian bytes |
| Varints.FromLeRoundTrip | src/compact.cpp:27-59 | and every byte string is the encoding of the number it reads as |
| Varints.LeAt | src/protomux.cpp:29-53 | byte i of the encoding is the number shifted right by 8i bits, cut to a byte |
| Varints.VarintParts | src/compact.cpp:62-117 | the first byte of a varint tells its length, and the rest its value, for all 64-bit values |
| Varints.VarintBytes | src/protomux.cpp:29-53 | the bytes of every number up to 32 bits: itself up to 252, else a marker of 0xFD or 0xFE and the number with its low byte first |
| Varints.VarintNine | src/protomux.cpp:29-53 | a larger number is 0xFF and eight bytes, lowest first |
| Protomux.VarintEncode | src/protomux.cpp:29-53 | the multiplexer writes, in place, the very bytes that the codec's Uint encoding has |
| Protomux.VarintDecode | src/protomux.cpp:55-85 | value and position after it; a truncated encoding reads as 0 and uses up the input |
| Protomux.DecodeInverts | src/protomux.cpp:22-85 | decoding an encoded 64-bit value returns it and what follows it |
| Protomux.HandleOne | src/protomux.cpp:687-704 | the handler call of one message of a batch; MuxWire.OneInABatch says which one it is |
| Protomux.HandleChannel | src/protomux.cpp:676-707 | the inner loop: the messages of one channel, to the zero length, the cap of 1024 entries or a malformed length |
| Protomux.HandleBatch | src/protomux.cpp:665-709 | the handler calls of a whole batch, in order, for every byte string |
| Protomux.Receive | src/protomux.cpp:553-579 | the handler calls of any incoming frame; the members of MuxWire say which ones they are |
| Protomux.BatchDelivers | src/protomux.cpp:484-539 | the entries of a batch reach the handlers in order, up to where the cap of the reader cuts them off |
| Protomux.RoomIsWeight | src/protomux.cpp:665-709 | none is cut off exactly when messages plus channel switches are at most 1024 |
| Protomux.BatchIsRead | src/protomux.cpp:484-579 | a whole batch frame with its header is read that way |
| Protomux.CorkIsTransparent | src/protomux.cpp:452-709 | the corked batch of any non-empty plain frames leads to the same ordered handler calls as the frames one by one, up to the frame that exceeds the cap; for all of them exactly when messages plus switches are at most 1024 |
| Protomux.NestedCorksHold | src/protomux.cpp:452-539 | while the corks, however nested, do not run out, nothing is written and every frame is kept in order |
| Protomux.OutermostUncorkWrites | src/protomux.cpp:480-539 | only the outermost uncork writes: one frame of everything written meanwhile, or nothing |
| Protomux.ChannelFramesArePlain | src/protomux.cpp:204-231 | the frames that channels write, to open, send and close, have a payload and are not read as batches |
| Protomux.CorkedChannelsMeanTheirFrames | src/protomux.cpp:452-579 | for every corked run of what channels write, what was put on the wire means the frames up to the one that exceeds the cap: all of them exactly when messages plus switches are at most 1024 |
| Protomux.CorkedRunMeansItsFrames | src/protomux.cpp:452-579 | for every corked run of operations, what was put on the wire means what its frames mean, within the cap |
| Protomux.EmptyPayloadBreaksABatch | src/protomux.cpp:484-539 | a concrete pair of frames shows why payloads must not be empty: alone the second is delivered, in a batch it is lost |
| Protomux.Mux.WriteFrame | src/protomux.cpp:452-478 | corked frames are split at their channel id and kept, uncorked ones go out, a destroyed mux does nothing |
| Protomux.Mux.Uncork | src/protomux.cpp:484-539 | the last uncork writes the batch in one buffer of the size computed beforehand |
| Protomux.BatchSize | src/protomux.cpp:494-506 | the precomputed size is the length of the batch |
| Protomux.EncodeEntry | src/protomux.cpp:519-530 | one entry, after a zero and the id of a new channel where that differs from the last one written |
| Protomux.EncodeBatch | src/protomux.cpp:508-533 | the second pass fills exactly the computed size with the batch |
| MuxWire.ControlFrames | src/protomux.cpp:562-574 | a control frame: type 1 opens, 2 rejects, 3 closes, and 4 or more is ignored |
| MuxWire.ControlBytes | src/protomux.cpp:562-574 | the same for the bytes 0 1, 0 2 and 0 3 and whatever follows |
| MuxWire.DataFrames | src/protomux.cpp:553-579 | any other channel id gets what follows it, unless that is nothing or the id is beyond 32 bits |
| MuxWire.SentFrames | src/protomux.cpp:250-270 | what a channel sends reaches the channel of that id with its type and data |
| MuxWire.OneInABatch | src/protomux.cpp:665-706 | a message inside a batch leads to the call it leads to by itself: data to its channel, control messages to their handlers, a batch to nothing |
| MuxWire.TwoInABatch | src/protomux.cpp:665-706 | messages of one channel follow each other |
| MuxWire.SwitchInABatch | src/protomux.cpp:665-706 | a zero byte and an id change the channel |
| MuxWire.BatchOfOneBytes | src/protomux.cpp:509-532 | the bytes of a batch of one frame: two zeros, the channel, length and payload |
| MuxWire.BatchBytes | src/protomux.cpp:519-532 | what each further frame adds to it: the switch if the channel is another, length and payload |
| MuxWire.WeightCounts | src/protomux.cpp:668-677 | what counts against the limit are the messages and the channel switches |
| MuxWire.RoomExactly | src/protomux.cpp:668-677 | a batch delivers just as many messages as stay within 1024 of them |
| Connect.ConnState.Complete | src/connect.cpp:126-147 | only the first completion reaches the user |
| Connect.ConnState.OnHandshakeReply | src/connect.cpp:225-249 | for the reply of any handshake in any state: a first success wins and empties the queue, a failure refills the pipeline; all invariants hold afterwards |
| Connect.ConnState.CheckExhaustion | src/connect.cpp:257-264 | completes as failed exactly when the query is done, no handshake is in flight, none has won and the queue is empty |
| Connect.ConnState.TryNextRelay | src/connect.cpp:270-287 | refills the pipeline from the queue and restores the invariants, unless the attempt is over |
| Connect.ConnState.Offer | src/connect.cpp:313-319 | a relay goes into the pipeline below two in flight, into the queue otherwise |
| Connect.ConnState.OnQueryReply | src/connect.cpp:297-320 | a reply without a value, or after a winner or the end, changes nothing at all; one with a value offers its relay and appends it to the relays found |
| Connect.ConnState.OnQueryDone | src/connect.cpp:321-333 | with nothing in flight and no winner the attempt completes here: as failed (-3) exactly if a cached route was tried or any relay was offered, as peer not found (-2) otherwise |
| Connect.ConnState.DoConnect | src/connect.cpp:472-522 | a cached route is tried alone, otherwise the cached relays fill the pipeline and the query starts |
| Connect.ConnState.OnRouteReply | src/connect.cpp:485-504 | a cached route wins or the peer query starts |
| Connect.ConnState.OnFirewall | src/connect.cpp:391-454 | the server's first packet is kept until a handshake has won, then completes the attempt; packets of the relay's own stream do not count |
| Connect.ConnState.OnHandshakeSuccess | src/connect.cpp:543-567 | the winner is counted once; a kept packet completes the attempt with success at once |
| Connect.ConnState.OnPathResult | src/connect.cpp:543-796 | of the parallel paths behind the winner only the first result counts |
| Connect.ConnState.PipelineIsBounded | src/connect.cpp:180-334 | in every interleaving at most two handshakes are in flight, at most one wins, a non-empty queue means two in flight and no winner, and the user's callback runs at most once |
| Connect.ConnState.ExhaustionHasCompleted | src/connect.cpp:257-334 | once the query is done with nothing in flight and no winner, the user has been told, exactly once: -3 exactly if a cached route was tried or any relay was offered, else -2; on a living DHT every relay offered was tried |
| Connect.ConnState.NeverStuck | src/connect.cpp:180-334 | while the DHT lives, an unfinished attempt waits for the route, the query, a handshake or a path behind the winner |
| Server.InjectiveIsSmall | src/server.cpp:371-374 | an injective table into the live sessions is no larger than they are |
| Server.StoreKeepsTables | src/server.cpp:825-842 | storing a session keeps the tables in step |
| Server.ForgetKeepsTables | src/server.cpp:1104-1124 | so does forgetting one |
| Server.Server.DedupIsNeverStale | src/server.cpp:371-392 | the dedup table is never larger than the live sessions and never points at a dead one, so neither clean-up can run |
| Server.Server.OnPeerHandshake | src/server.cpp:364-539 | a repeated handshake of a live session gets that session's reply again and changes nothing else; a new one gets the next id and then exactly its outcome, at once or when the deferred decision comes |
| Server.Server.OnFirewallDecision | src/server.cpp:495-521 | only the first answer to a deferred decision counts, with exactly its outcome, and none after close or suspend |
| Server.RepeatedWhilePending | src/server.cpp:371-521 | a handshake that comes again while its firewall decision is pending gets a second session |
| Server.RepeatedByOpenClient | src/server.cpp:809-816 | a handshake of a client that is reachable directly, when it comes again, is connected a second time |
| Server.Server.OnHandshakeResult | src/server.cpp:545-845 | exactly what each outcome changes: nothing beyond 256 waiting sessions or on failure, only a reply on rejection, a connection at once for a reachable client, otherwise one new session in all four tables |
| Server.Server.OutcomeIs | src/server.cpp:545-845 | every outcome field by field: nothing when closed, suspended, failed or with 256 sessions waiting; a reply otherwise; a connection for a reachable client; entries in all tables for any other |
| Server.Server.Erase | src/server.cpp:1104-1124 | a session leaves all four tables together |
| Server.Server.ForgottenIs | src/server.cpp:1104-1124 | no table knows a forgotten session any more, and every other entry is still there as it was |
| Server.Server.ClearSession | src/server.cpp:1104-1124 | the timer's exit forgets exactly that session in all tables |
| Server.Server.OnPuncherConnect | src/server.cpp:984-1003 | the session is taken out of all tables before it is connected, once |
| Server.Server.OnRawStreamFirewall | src/server.cpp:1133-1168 | a first packet connects the waiting session of that stream, which leaves all tables |
| Server.Server.OnRawStreamClose | src/server.cpp:1181-1195 | a stream closed before a connection takes its session out of all tables |
| Server.Server.Close | src/server.cpp:215-259 | all tables are empty and stay so |
| Server.Server.Suspend | src/server.cpp:287-312 | all tables are empty; a second suspend changes nothing |
| Server.Server.OnSocket | src/server.cpp:1059-1096 | one connection is emitted for the session, none without a connection callback |
| Server.Server.EmittedAtMostOnce | src/server.cpp:1059-1096 | in every run each session leads to at most one connection, and never to one while it waits |
| Compact.UintTrip | src/compact.cpp:62-117 | every 64-bit value is read back, with what follows it untouched |
| Compact.LeTrip | src/compact.cpp:123-190 | so is every fixed-size integer |
| Compact.FixedTrip | src/compact.cpp:274-308 | and every fixed-size field |
| Compact.BufferTrip | src/compact.cpp:211-246 | a buffer up to 65536 bytes is read back, the empty one included |
| Compact.LongBufferIsRefused | src/compact.cpp:236-246 | a longer one is written but refused by the reader |
| Compact.V4Trip | src/compact.cpp:348-368 | an IPv4 address is read back |
| Compact.V6Trip | src/compact.cpp:478-498 | an IPv6 address is read back |
| Compact.AllTrip | include/hyperdht/compact.hpp:206-235 | elements that come back one by one come back as a list |
| Compact.ArrayTrip | include/hyperdht/compact.hpp:206-235 | an array up to the cap comes back, for any element codec with the round trip |
| Compact.AllPartIs | include/hyperdht/compact.hpp:222-234 | an array decodes exactly if no element is cut short, and then to what was read |
| Compact.FrameTrip | include/hyperdht/compact.hpp:245-276 | a framed value comes back for any codec with the round trip, also with unknown data behind it in the frame, and reading goes on after the frame |
| Compact.OptTrip | src/messages.cpp:119-213 | an optional field announced by a flag comes back |
| Compact.State.PreUint | src/compact.cpp:62-71 | the first pass counts what the second writes |
| Compact.State.PreBuffer | src/compact.cpp:211-220 | likewise for a buffer |
| Compact.State.PreV4s | include/hyperdht/compact.hpp:208-213 | likewise for an array of addresses |
| Compact.State.PreV6s | include/hyperdht/compact.hpp:208-213 | likewise for an array of IPv6 addresses |
| Compact.State.PreFrame | include/hyperdht/compact.hpp:247-252 | the length prefix and the value of a frame are counted |
| Compact.State.PutBytes | src/compact.cpp:254-260 | the bytes are appended exactly when they fit, otherwise the error flag is set |
| Compact.State.PutLe | src/compact.cpp:139-190 | a fixed-size integer is appended or the error flag set |
| Compact.State.PutUint | src/compact.cpp:73-94 | a varint is appended or the error flag set |
| Compact.State.PutBuffer | src/compact.cpp:222-234 | length and bytes are appended or the error flag set |
| Compact.State.PutV4 | src/compact.cpp:350-358 | an address is appended or the error flag set |
| Compact.State.PutV4s | include/hyperdht/compact.hpp:215-220 | an array of addresses is appended or the error flag set |
| Compact.State.PutV6 | src/compact.cpp:480-488 | an IPv6 address is appended or the error flag set |
| Compact.State.PutV6s | include/hyperdht/compact.hpp:215-220 | an array of IPv6 addresses is appended or the error flag set |
| Compact.State.PutFramedV4 | include/hyperdht/compact.hpp:254-259 | the counted length and the value are appended or the error flag set |
| Compact.State.GetLe | src/compact.cpp:147-190 | the value and the advanced cursor, or the sticky error flag |
| Compact.State.GetUint | src/compact.cpp:96-117 | likewise for a varint |
| Compact.State.GetFixed | src/compact.cpp:282-308 | likewise for a fixed-size field |
| Compact.State.GetBuffer | src/compact.cpp:236-246 | likewise for a buffer, with the cap |
| Compact.State.GetV4 | src/compact.cpp:360-368 | likewise for an address |
| Compact.State.GetV4s | include/hyperdht/compact.hpp:222-234 | the loop over the elements reads what the recursive decoder reads; after an error it leaves the elements before it and a zero one |
| Compact.State.GetV6 | src/compact.cpp:490-498 | the value and the advanced cursor, or the error flag |
| Compact.State.GetV6s | include/hyperdht/compact.hpp:222-234 | likewise for IPv6 addresses |
| Compact.State.BeginFrame | include/hyperdht/compact.hpp:261-270 | exactly the bytes of the frame are left to the value, those behind it kept for later; a frame longer than the input sets the error flag and leaves the end |
| Compact.State.EndFrame | include/hyperdht/compact.hpp:272-273 | reading goes on behind the frame, whatever of it was read |
| Compact.State.GetFramedV4 | include/hyperdht/compact.hpp:261-275 | the cursor reads what the decoding function of a frame reads, and its end is restored |
| Messages.FlagsTell | src/messages.cpp:24-65 | every flag bit is read back independently of the others |
| Messages.RequestTrip | src/messages.cpp:24-163 | decoding an encoded request returns all its fields |
| Messages.ResponseTrip | src/messages.cpp:71-213 | decoding an encoded response returns all its fields |
| Messages.RoundTrip | src/messages.cpp:24-230 | every message, request or response, comes back through decode_message |
| WireLayouts.EndpointBytes | src/compact.cpp:348-372 | an endpoint: the host, then the port with its low byte first |
| WireLayouts.EndpointLists | include/hyperdht/compact.hpp:206-235 | a list of endpoints: one behind the other |
| WireLayouts.BufferBytes | src/compact.cpp:211-262 | a buffer: its length, then its bytes |
| WireLayouts.TooLong | src/compact.cpp:227-262 | more than 4096 endpoints, a buffer of more than 65536 bytes and one that is not all there are refused |
| WireLayouts.RequestBytes | src/messages.cpp:24-69 | the bytes of every request |
| WireLayouts.ResponseBytes | src/messages.cpp:71-117 | the bytes of every response |
| WireLayouts.UnknownMessages | src/messages.cpp:119-230 | what is too short, has another type byte or flags beyond a byte is no message |
| Messages.HolepunchTrips | src/peer_connect.cpp:56-231 | the holepunch section of a handshake payload comes back, up to 128 relays |
| Messages.PayloadTrip | src/peer_connect.cpp:56-231 | a version 1 handshake payload comes back with all its optional sections |
| Messages.HandshakeTrip | src/peer_connect.cpp:244-295 | the handshake wrapper comes back |
| WireLayouts.SectionBytes | src/peer_connect.cpp:56-145 | the bytes of the holepunch, UDX and relay sections of a handshake payload |
| WireLayouts.PayloadBytes | src/peer_connect.cpp:56-145 | the bytes of every handshake payload |
| WireLayouts.OtherVersions | src/peer_connect.cpp:151-165 | a payload of another version than 1, or none at all, reads as empty with error 2 |
| WireLayouts.TooManyRelays | src/peer_connect.cpp:171-185 | more than 128 relays are refused |
| WireLayouts.HandshakeBytes | src/peer_connect.cpp:244-268 | the bytes of the handshake wrapper |
| WireLayouts.CutPayload | src/peer_connect.cpp:151-231 | what is kept of a payload that is cut short in its numbers or in the holepunch section |
| WireLayouts.CutHandshake | src/peer_connect.cpp:270-295 | what is kept of a wrapper that is cut short in the noise message or in either address |
| Messages.PunchTrip | src/holepunch.cpp:155-229 | a holepunch payload comes back, for firewall values up to 3 |
| Messages.PunchMessageTrip | src/holepunch.cpp:1125-1173 | a holepunch message comes back, for modes up to 255 |
| WireLayouts.PunchBytes | src/holepunch.cpp:155-192 | the bytes of every holepunch payload |
| WireLayouts.UnknownFirewall | src/holepunch.cpp:194-229 | a firewall value beyond 3 is kept and nothing behind it is read |
| WireLayouts.CutPunch | src/holepunch.cpp:194-229 | what is kept of a holepunch payload that is cut short in its numbers or in the remote address |
| WireLayouts.PunchMessageBytes | src/holepunch.cpp:1125-1145 | the bytes of every holepunch message |
| WireLayouts.OddPunchMessages | src/holepunch.cpp:1147-1173 | flags or a mode beyond a byte and a session beyond 32 bits are refused; an address cut short reads as zero |
| Messages.RecordTrips | src/dht_messages.cpp:77-99 | a peer record comes back |
| Messages.AnnounceTrip | src/dht_messages.cpp:105-168 | an announcement comes back with its optional parts |
| Messages.PutTrip | src/dht_messages.cpp:174-211 | a mutable put comes back |
| Messages.GetTripIffSmall | src/dht_messages.cpp:217-250 | a stored value comes back exactly when it is at most 65536 bytes long |
| Messages.PeersTrip | src/dht_messages.cpp:275-320 | the records of a lookup reply come back in order without the empty ones |
| Messages.LookupTrip | src/dht_messages.cpp:275-320 | a lookup reply comes back with its bump and without its empty records |
| WireLayouts.RecordBytes | src/dht_messages.cpp:77-89 | the bytes of a peer record |
| WireLayouts.AnnounceBytes | src/dht_messages.cpp:105-136 | the bytes of every announcement |
| WireLayouts.StorageBytes | src/dht_messages.cpp:174-232 | the bytes of a mutable put and of a stored value |
| WireLayouts.LookupBytes | src/dht_messages.cpp:275-320 | the bytes of a lookup reply; more than 1024 records are not read |
| WireLayouts.OnlyFullRecords | src/dht_messages.cpp:298-320 | of the records of a lookup the empty ones are dropped, the others keep their order |
| WireLayouts.CutAnnounce | src/dht_messages.cpp:138-168 | what is kept of an announcement that is cut short in its record or behind it |
| WireLayouts.CutPut | src/dht_messages.cpp:193-215 | what is kept of a put that is cut short, field by field |
| WireLayouts.CutGet | src/dht_messages.cpp:234-250 | what is kept of a stored value that is cut short |
| MessageCodec.WriteRequest | src/messages.cpp:24-61 | the two passes agree: the second fills exactly the counted buffer, with no error, with the body of the request |
| MessageCodec.EncodeRequest | src/messages.cpp:24-65 | the message of both passes, with its type in front, decodes to the request |
| MessageCodec.ReadRequest | src/messages.cpp:119-163 | the cursor-driven decoder gives what the decoding function gives, on every byte string |
| MessageCodec.WriteResponse | src/messages.cpp:71-109 | the two passes agree, likewise for a response |
| MessageCodec.EncodeResponse | src/messages.cpp:71-113 | the message of both passes, with its type in front, decodes to the response |
| MessageCodec.ReadResponse | src/messages.cpp:169-213 | the cursor-driven decoder gives what the decoding function gives, on every byte string |
| MessageCodec.ReadMessage | src/messages.cpp:219-230 | the type byte leads to the decoder of a request or a response; anything else is refused |
| HandshakeCodec.GetRelays | src/peer_connect.cpp:175-181 | the reading loop over relay pairs, with an error in the middle of a pair or between two, reads what the recursive decoder reads |
| Fields.PayloadFieldsAre | src/peer_connect.cpp:151-231 | where a handshake payload decodes, what is handed back are its fields |
| Fields.HandshakeFieldsAre | src/peer_connect.cpp:270-295 | likewise for the handshake wrapper |
| Fields.PunchFieldsAre | src/holepunch.cpp:194-229 | likewise for a holepunch payload |
| Fields.PunchMessageFieldsAre | src/holepunch.cpp:1147-1173 | likewise for a holepunch message |
| Fields.RecordFieldsAre | src/dht_messages.cpp:91-99 | a peer record decodes exactly if nothing of it is cut short, and then to the fields handed back |
| Fields.AnnounceFieldsAre | src/dht_messages.cpp:138-168 | where an announcement decodes, what is handed back are its fields |
| HandshakeCodec.WritePayload | src/peer_connect.cpp:56-149 | the two passes agree: the second fills exactly the counted buffer, with no error, with the encoding, which decodes to the payload if its version is 1 |
| HandshakeCodec.ReadPayload | src/peer_connect.cpp:151-231 | the cursor-driven decoder, with each early return, hands back on every byte string the fields as far as they could be read, and where the message decodes all of them |
| HandshakeCodec.WriteHandshake | src/peer_connect.cpp:244-268 | the two passes agree: the second fills exactly the counted buffer, with no error, with the encoding, which decodes to the message |
| HandshakeCodec.ReadHandshake | src/peer_connect.cpp:270-295 | the cursor-driven decoder, with each early return, hands back on every byte string the fields as far as they could be read, and where the message decodes all of them |
| HandshakeCodec.WritePunch | src/holepunch.cpp:155-192 | the two passes agree: the second fills exactly the counted buffer, with no error, with the encoding, which decodes to the payload for firewall values up to 3 |
| HandshakeCodec.ReadPunch | src/holepunch.cpp:194-229 | the cursor-driven decoder, with each early return, hands back on every byte string the fields as far as they could be read, and where the message decodes all of them |
| HandshakeCodec.WritePunchMessage | src/holepunch.cpp:1125-1145 | the two passes agree: the second fills exactly the counted buffer, with no error, with the encoding, which decodes to the message for modes up to 255 |
| HandshakeCodec.ReadPunchMessage | src/holepunch.cpp:1147-1173 | the cursor-driven decoder, with each early return, hands back on every byte string the fields as far as they could be read, and where the message decodes all of them |
| DhtCodec.WriteRecord | src/dht_messages.cpp:77-89 | the two passes agree: the second fills exactly the counted buffer, with no error, with the encoding, which decodes to the record whatever follows |
| DhtCodec.ReadRecord | src/dht_messages.cpp:91-99 | the cursor-driven decoder, with each early return, hands back on every byte string the fields as far as they could be read, and where the message decodes all of them |
| DhtCodec.WriteAnnounce | src/dht_messages.cpp:105-136 | the two passes agree: the second fills exactly the counted buffer, with no error, with the encoding, which decodes to the announcement |
| DhtCodec.ReadAnnounce | src/dht_messages.cpp:138-168 | the cursor-driven decoder, with each early return, hands back on every byte string the fields as far as they could be read, and where the message decodes all of them |
| DhtCodec.WritePut | src/dht_messages.cpp:174-191 | the two passes agree: the second fills exactly the counted buffer, with no error, with the encoding, which decodes to the put |
| DhtCodec.ReadPut | src/dht_messages.cpp:193-211 | the cursor-driven decoder, with each early return, hands back on every byte string the fields as far as they could be read, and where the message decodes all of them |
| DhtCodec.WriteGet | src/dht_messages.cpp:217-232 | the two passes agree: the second fills exactly the counted buffer, with no error, with the encoding, which decodes to the stored value exactly when that is at most 65536 bytes long |
| DhtCodec.ReadGet | src/dht_messages.cpp:234-250 | the cursor-driven decoder, with each early return, hands back on every byte string the fields as far as they could be read, and where the message decodes all of them |
| DhtCodec.WriteLookup | src/dht_messages.cpp:275-296 | the two passes agree: the second fills exactly the counted buffer, with no error, with the encoding, which decodes to the non-empty records and the bump |
| DhtCodec.GetRecords | src/dht_messages.cpp:306-312 | the reading loop drops empty records and ends at an error with what was read so far |
| DhtCodec.ReadLookup | src/dht_messages.cpp:298-320 | the cursor-driven decoder gives what the decoding function gives, on every byte string |
| LruCache.LruCache.Put | include/hyperdht/lru_cache.hpp:26-46 | an update moves to the front and refreshes; an insertion evicts only if full, and only keys whose last use is older than that of every key kept; list and map agree and the size never exceeds max(max_size, 1), and max_size exactly if that is 0 |
| LruCache.LruCache.Get | include/hyperdht/lru_cache.hpp:49-55 | a hit exactly for stored keys, which moves to the front and keeps the order of the rest; a miss changes nothing |
| LruCache.LruCache.Remove | include/hyperdht/lru_cache.hpp:58-63 | exactly that entry leaves |
| LruCache.LruCache.Gc | include/hyperdht/lru_cache.hpp:74-84 | exactly the expired entries leave and the rest keeps its order |
| LruCache.FreshIs | include/hyperdht/lru_cache.hpp:74-84 | an entry survives exactly when the clock has not passed its creation plus the maximum age |
| LruCache.FreshInOrder | include/hyperdht/lru_cache.hpp:73-84 | what has not expired keeps its order |
| LruCache.LruCache.MakeRoom | include/hyperdht/lru_cache.hpp:36-41 | eviction takes entries from the back until one fits |
| LruCache.LruCache.Detach | include/hyperdht/lru_cache.hpp:49-63 | following the map's iterator finds the entry of the key |
| LruCache.RemoveKeepsList | include/hyperdht/lru_cache.hpp:58-63 | taking out one position keeps list, map and order of use in step |
| LruCache.FrontKeepsList | include/hyperdht/lru_cache.hpp:43-45 | inserting at the front keeps them in step, as the latest use |
| Fields.PutFields | src/dht_messages.cpp:193-211 | where the message decodes, these are its fields; behind an error they keep their zero values, with key and signature of full length |
| Fields.GetFields | src/dht_messages.cpp:234-250 | likewise for a stored value |
| Storage.StoredDecodes | src/dht_messages.cpp:217-250 | what is stored for a value within the put cap decodes to what was put |
| Storage.Store.HandleMutablePut | src/rpc_handlers.cpp:657-734 | for every request the one outcome: dropped exactly if something is missing, the token is not valid, the public key does not hash to the target, the value is empty or longer than 32768, or the signature is wrong; refused with 16 for another value under the same sequence number, with 17 for a smaller one; otherwise stored at the front of the cache. While a key stays cached its sequence number never decreases and its value changes only with a larger one; every stored entry decodes to the last accepted put, and is signed with a public key that hashes to its key |
| Storage.Store.HandleMutableGet | src/rpc_handlers.cpp:742-767 | a value is returned exactly when one is cached with at least the requested sequence number; it decodes to the last accepted put and is signed for the target; the lookup counts as a use |
| Storage.RequestedIs | src/rpc_handlers.cpp:746-752 | the sequence number asked for is the one the value encodes, 0 for an empty one |
| Storage.Store.HandleImmutablePut | src/rpc_handlers.cpp:775-803 | stored, at the front, exactly if token, size and hash are right; otherwise nothing changes |
| Storage.Store.HandleImmutableGet | src/rpc_handlers.cpp:811-823 | returned exactly when cached, and what comes back hashes to the target |
| Storage.Store.Lookup | src/rpc_handlers.cpp:692-698 | whatever the cache holds for a key decodes to the last accepted put |
| Health.HealthMonitor.Update | src/health.cpp:40-85 | the incremental update equals the classification of the full history: the ring holds the last four ticks, both counters count their classes, the state is the verdict on the whole history |
| Health.HealthMonitor.Reset | src/health.cpp:11-18 | the monitor starts over |
| Health.HealthMonitor.TotalResponses | src/health.cpp:24-30 | the sum over the full ring, modulo 2^32 |
| Health.HealthMonitor.TotalTimeouts | src/health.cpp:32-38 | the sum over the full ring, modulo 2^32 |
| Health.RingSum | src/health.cpp:24-38 | summing the ring in slot order sums the last four ticks, wherever the head stands |
| Health.FullCount | src/health.cpp:72-85 | a full count means that every tick of the window has the class |
| Health.VerdictExactly | src/health.cpp:72-85 | the new verdict in every case: unchanged for a tick that is not evaluated; else OFFLINE when the responses of the window sum to a multiple of 2^32, DEGRADED when the last four ticks were all evaluated and bad, ONLINE when they were all evaluated and none bad, and unchanged otherwise |
| Health.VerdictsAreEarned | src/health.cpp:72-85 | DEGRADED is entered only after four consecutive evaluated ticks of mostly timeouts, OFFLINE only on a full window that is not idle and sums to no response, ONLINE only after four good ticks |
| Health.WithoutOverflow | src/health.cpp:20-66 | while the sums of the window stay below 2^32, the verdicts mean what they say; a consequence of the exact conditions below |
| Health.BadTicksExactly | src/health.cpp:60-66 | a tick counts as bad when it has more timeouts than responses: that is so if and only if its sum is below 2^32, or equal to it without a majority of timeouts, or above it with one |
| Health.OverflowLooksBad | src/health.cpp:60-66 | a concrete tick with ten thousand times more responses than timeouts that counts as bad, and one with a majority of timeouts that does not |
| Health.EvaluatedExactly | src/health.cpp:57-66 | a window is evaluated when it is full with at least four observations: that is so if and only if it is not full, or idle, or its sum modulo 2^32 is at least four |
| Health.OfflineExactly | src/health.cpp:72-85 | an evaluated tick takes the monitor offline when the window holds no response: that is so if and only if it holds none or the sum of its responses is not a multiple of 2^32 |
| Health.OverflowGoesOffline | src/health.cpp:24-85 | a concrete history of four ticks with 2^30 responses each goes offline |
| Rpc.FourBuckets | src/rpc.cpp:87-110 | the sum the window is measured against is that of its four buckets |
| Rpc.CongestionWindow.Recv | src/rpc.cpp:98-103 | a reply takes one from the current bucket and the total, unless that bucket is empty |
| Rpc.CongestionWindow.Drain | src/rpc.cpp:105-110 | on every reachable window the clamp is idle: the total drops by exactly the emptied bucket and stays the sum of four non-negative buckets |
| Rpc.SwapPopRemoves | src/rpc.cpp:268-289 | swap-and-pop removes exactly the one request |
| Rpc.RpcSocket.MakeRequest | src/rpc.cpp:369-412 | sent at once exactly if the current bucket holds fewer than maxWindow and all four together fewer than twice that; otherwise queued, or refused with 640 in the queue; refused when closing; the window counts what was sent |
| Rpc.RpcSocket.OnResponse | src/rpc.cpp:726-743 | a response to a request in flight finishes it and calls back once; any other response does nothing |
| Rpc.RpcSocket.OnRequestTimeout | src/rpc.cpp:549-570 | a timer leads to another transmission, or after the last one to a single timeout callback |
| Rpc.RpcSocket.CancelRequest | src/rpc.cpp:251-259 | only a request in flight can be cancelled, and it gets no callback |
| Rpc.RpcSocket.DrainPending | src/rpc.cpp:342-357 | queued requests are sent oldest first until the window is full or the queue empty, and none once it is full |
| Rpc.RpcSocket.FirstLeaves | src/rpc.cpp:342-357 | a queued request is never destroyed, so that branch of the loop never runs |
| Rpc.RpcSocket.OnDrainTick | src/rpc.cpp:532-547 | the window has rotated once and its new bucket holds just what was sent now, a prefix of the queue in order; it is full or nothing waits, and was not full before the last one |
| Rpc.RpcSocket.Close | src/rpc.cpp:468-523 | everything accepted is finished, without further callbacks |
| Rpc.RpcSocket.LifeCycle | src/rpc.cpp:251-412 | in every run an accepted request is in exactly one of queue, flight and finished, is transmitted at most retries + 1 times, once for negative retries, and gets at most one callback, a response or a timeout but never both; the congestion total is the sum of its four buckets |

## Left out

- Compact.State.BeginFrame: positions are natural numbers, so a frame length that makes the 64-bit end wrap around is an error at once; the source notices it with the next read. No message of the repository uses a frame.
- MessageCodec.EncodeRequest: values longer than the reader's cap of 65536 bytes, lists beyond 4096 addresses and more than 128 relays are outside the types of requests, responses, payloads, puts and records; what happens beyond the cap of a buffer is stated at Compact.LongBufferIsRefused and DhtCodec.WriteGet.
- MessageCodec.ReadRequest: gives nothing on an error, where the source returns false and leaves a partly filled structure that no caller looks at; likewise for responses.
- Queries.Query.Commit: each reply callback is called at most once, and a further call does nothing; the source would count it again.
- Queries.Query.AddBootstrap: between events, not from inside a reply or commit callback.
- Queries.Query.EveryHeardNodeIsAccounted: that the answers carry valid ids is its assumption, because the socket checks them before the query sees them.
- Queries.Query.CompletesWhenAllIsAnswered: that every visit and commit is answered is its assumption, since a rejected request gets no callback and commits have no timeout handler.
- SecretStream.DeliversWhatHasCome: for message callbacks that do not destroy the stream; SecretStream.DeliversAFront is for any.
- SecretStream.DeliversUpToARefusal: for runs in which no message opens as one with a lower number, which a cipher ensures up to negligible chance, and for a receiver whose own header is acknowledged first.
- Protomux.CorkedRunMeansItsFrames: for payloads that are not themselves batches and runs within the cap; Protomux.CorkedChannelsMeanTheirFrames needs neither for the frames of channels.
- Server.Server.EmittedAtMostOnce: the blind-relay branch of a session (src/server.cpp:614-807) is not modelled; it can emit a connection after another path did.
- Server.Server.OnPeerHandshake: session ids are fresh natural numbers and raw streams have distinct ids; wrap-around of the 32-bit session id is not modelled.
- Rpc.RpcSocket.LifeCycle: transaction ids are natural numbers that do not wrap around; round-trip times and adaptive timeouts are not modelled.
- Connect.ConnState.Complete: what a successful completion writes to the relay cache and the route table (src/connect.cpp:130-142) is not modelled; the relays it would write are the field `relays`.
- RoutingTable.SortByDistanceSorts: the library sort is an insertion sort; distances never tie, so any sort gives this result.
- Queries.Query.AddPending: the seen map is keyed by the address itself; Addresses.AddressKeyInjective shows that the source's string key tells the same.
- Health.HealthMonitor.Update: the timeout rate is compared as an exact fraction; the double quotient of two 32-bit numbers is on the same side of one half.
- The insides of the cryptographic primitives (BLAKE2b, Ed25519, ChaCha20-Poly1305, the secretstream cipher) and zeroing of memory: functions with laws.
- Channel pairing, opening and closing in the multiplexer, and the data path between two of them: only what a frame is and what it dispatches.
- Unordered messages, keepalive and timeout timers, and backpressure of the stream.
- The decision tree after a won handshake (LAN shortcut, holepunch rounds, blind relay): its paths only report results.
- Holepuncher, NAT sampler, announcer, announce store, token store, socket pool, firewall probing and background maintenance: next to the above they would add easy members.
- The metadata counters of a routing-table node, random node choice, and the ping-and-swap behind a full bucket.
- Storage.Store.HandleMutablePut: every stored record went through a put; the hooks that restore persisted records into the caches (include/hyperdht/rpc_handlers.hpp:148-153) are not modelled.
- The periodic run of the caches' garbage collection; the collection itself is LruCache.LruCache.Gc.
- libuv and UDX handles, logging, the C interface, the examples.
