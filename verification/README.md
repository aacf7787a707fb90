# A verified model of the node's protocols, wire formats and tables

This project models the parts of the kadmlia node in which the order of events, the bytes on the wire or the shape of a
table decides whether the node works, and proves properties of them for every input and every run. Run
`dafny verify dfyconfig.toml` in this directory.

* **Callback manager** (`CallbackTable`, `CallbackProtocol`, `CallbackManager`, `MessageIds`). Every critical section on
  the table of expected replies is one atomic step; the timer sweep is several (collect under the lock, then cancel one
  by one); functor calls happen outside the lock, as separate steps. A run is any sequence of steps, so the theorems
  cover every interleaving of every number of threads. The class `CallbackManager` has the loops of the source, proved
  against the same table functions that the steps use.
* **Wire formats** (`Wire`, `Buffers`, `NodeMessages`, `NodeMessageClass`, `AllNodesMessageClass`, `LedgerMessages`,
  `LedgerMessageClass`). Varints, tags, length-delimited records and groups follow the Protocol Buffers Encoding
  specification, sections "Base 128 Varints", "Message Structure", "Length-Delimited Records" and "Last One Wins". A
  message is first a value with parse, merge and serialize as functions on byte strings, for which the laws are proved;
  the classes have the generated code's parse loops, has-bits word, size fast path and two serializers, proved against
  those functions. proto2 presence and proto3 implicit defaults give two different merge laws, both stated exactly.
* **Saved registry and statistics** (`NodeRegistry`, `QueryStatistics`). The `all_nodes` save and load commands end to
  end through the wire format, join requests, and the statistics of a query read back from the history of answers.
* **Indexes and caches** (`DxipIndex`, `DynamicXip`, `ServiceCache`, `EndpointLists`, `MessageIdentity`, `Decimals`).
  The two dxip maps under two locks, the wrapping dynamic-xip allocator, the cache of service nodes, the endpoint lists,
  and the key and text of a message.
* **Routing** (`XorMetric`, `KBuckets`, `RoutingTable`, `GreedyRouting`). The xor order and the bucket index with their
  numeric meaning, the k-bucket bound over every interleaving of the table's critical sections, closest-node search, and
  messages relayed through a whole network of tables.

## What turned out false, or only half true

* An item added under a message id that a sweep has already collected can be timed out by that sweep although its own
  timeout is far away (`ReuseCanTimeOutEarly`). `SweepIsEarlyExactlyOnReuse` says that this is the only way.
* For proto3 endpoints, parsing a concatenation is not always merging: an explicit default in the second string resets a
  field. `EndpointConcatIsMergeUnlessReset` gives the exact condition.
* The service cache exceeds its 8 nodes, without any bound, as soon as fetches may answer 5 nodes or more, because an
  append removes 4 at most (`BoundedExactlyForSmallFetches`).
* Concurrent `AddNode` calls for one new id can leave the id in the vector more than once, because the second check,
  under the lock of the vector, asks the map, which is filled later. It happens exactly when two of them push before any
  of them inserts and the bucket had two places left (`RacingAddsDuplicateExactlyWhen`).
* A dxip given to another node while its drop is under way is lost from one map exactly when the drop finishes after the
  add (`ReuseDuringDropExactlyBreaks`).
* The comment on `SetNodeBucket` in `routing_table/routing_table.h` says that bucket indexes run from 0 to
  8 * kNodeIdSize - 1, and -1 for the local id. The code gives 1 to 8 * kNodeIdSize, and 0; the model follows the code.

## Assumptions

* The steps of a run happen one after another; each is what the source does under one mutex. The clock is not modelled:
  a timer tick is a step that may happen at any time.
* `kNodeIdSize` is not defined in the repository: the size of ids is a parameter of the routing modules.
* UTF-8 validity, `SetNodeBucket` in the registry, and what `get_service_public_nodes_` answers are parameters.
* The setters of a xip store independent fields that hold a byte each, `%d` prints the signed 32-bit value of its
  argument and `check_cast<std::string>` prints decimal; `XipParser`, `str_fmt` and `check_cast` are not part of this model.
* `SendData` to a node delivers to the table with that node's id.

## Model

| member | source | states |
|---|---|---|
| `CallbackProtocol.RunKeeps` | src/callback_manager.cc:45-173 | the invariant tying table, item histories, collected ids and functor calls holds after every interleaving of critical sections |
| `CallbackProtocol.ReplyConservation` | src/callback_manager.cc:53-155 | in the table, remaining count plus replies is what was expected; an item erased by a callback got every reply, a timed out one had exactly the missing ones reported, a cancelled or discarded one got fewer and no timeout; each functor is called once per claim |
| `CallbackProtocol.ErasedIsFinal` | src/callback_manager.cc:75-155 | once an item is erased no later step of any run makes a claim for it or changes its history |
| `CallbackProtocol.InsertionOf` | src/callback_manager.cc:53-73 | every item comes from one Add, with that Add's id, timeout, count and functors |
| `CallbackProtocol.NoTimeoutIsLost` | src/callback_manager.cc:157-173 | between sweeps, every item in the table has been through fewer sweeps than max(1, timeout_sec), so its due sweep has removed it |
| `CallbackProtocol.SweepIsEarlyExactlyOnReuse` | src/callback_manager.cc:110-173 | a sweep times an item out exactly at its max(1, timeout_sec)-th sweep, unless it was added under an id that the sweep had collected; then, and only then, earlier |
| `CallbackProtocol.ReusedItemIsSwept` | src/callback_manager.cc:157-173 | a live item under a collected id is timed out by the round that cancels the id |
| `CallbackProtocol.ReuseCanTimeOutEarly` | src/callback_manager.cc:110-173 | a run in which an item with 100 seconds left is timed out by a sweep that never counted it |
| `CallbackProtocol.CancelLoopCancelsAll` | src/callback_manager.cc:168-172 | undisturbed, the cancel loop removes the collected ids and claims every reply they still expect |
| `CallbackProtocol.UndisturbedSweep` | src/callback_manager.cc:157-173 | a sweep that nothing interleaves with is the one-shot sweep that the class method computes |
| `CallbackProtocol.AddEffect` | src/callback_manager.cc:53-73 | as a step of a run, an Add leaves every item that is there and puts the described item under a free id only |
| `CallbackProtocol.CallbackEffect` | src/callback_manager.cc:75-108 | as a step, a Callback counts one reply off or erases, and owes one success call to each functor the item has |
| `CallbackProtocol.CancelEffect` | src/callback_manager.cc:115-155 | as a step, a Cancel erases, and owes a timeout call per missing reply and functor exactly when callbacks are not switched off |
| `CallbackProtocol.CollectEffect` | src/callback_manager.cc:157-168 | as a step, a sweep takes one second from every item and collects exactly the expired ids in ascending order |
| `CallbackProtocol.SweepAndDeliverEffect` | src/callback_manager.cc:157-173 | as steps, a round of the cancel loop times out the next id collected, a sweep ends when none is left, and a call is made only when owed |
| `CallbackTable.CallsCount` | src/callback_manager.cc:75-155 | the calls for one claim contain each functor of the item exactly n times, and nothing else |
| `CallbackTable.CallsAt` | src/callback_manager.cc:75-155 | the calls of a claim in order: those of the plain functor first, then those of the mutex functor |
| `CallbackTable.TimeoutCallsConcat` | src/callback_manager.cc:168-172 | the timeout calls of a list of ids are made in the order of the list |
| `CallbackTable.AscendingIsSorted` | src/callback_manager.cc:157-173 | there is just one ascending enumeration of the ids: the order in which the map is visited |
| `CallbackManagers.CallbackManager.MessageId` | src/callback_manager.cc:25-27 | the next id, with the wrap at 2^32 |
| `CallbackProtocol.JoinIsFinal` | src/callback_manager.cc:45-51 | after Join the table is empty and no item is live, and whatever steps follow, nothing about an item from before changes and no further call is claimed for it |
| `CallbackManagers.CallbackManager.Add` | src/callback_manager.cc:53-73 | every id in the table keeps its item, a free id gets the new one, and a null item does nothing |
| `CallbackManagers.CallbackManager.Callback` | src/callback_manager.cc:75-108 | one reply less is expected of the item, the last one erases it, other items stay; each functor is called once with success |
| `CallbackManagers.CallbackManager.Timeout` | src/callback_manager.cc:110-113 | erases the item and reports every reply still expected as a timeout |
| `CallbackManagers.CallbackManager.Cancel` | src/callback_manager.cc:115-155 | erases the item, and reports timeouts only when callbacks are not switched off |
| `CallbackManagers.CallbackManager.TimeoutCheck` | src/callback_manager.cc:157-173 | alone, keeps exactly the items with more than a second left, one second older, and reports every remaining reply of the others as a timeout in ascending order of ids |
| `CallbackManagers.CallbackManager.AgeAndCollect` | src/callback_manager.cc:157-168 | the locked half ages every item and collects the expired ids in order |
| `CallbackManagers.CallbackManager.CancelAll` | src/callback_manager.cc:168-172 | the cancel loop removes the listed items and makes their timeout calls in list order |
| `MessageIds.SameIdExactlyOnWrap` | src/callback_manager.cc:25-27 | two draws get the same id exactly when 2^32 divides their distance |
| `MessageIds.DrawnIdIsTakenExactlyWhen` | src/callback_manager.cc:25-73 | a drawn id is taken exactly when some live item was drawn a multiple of 2^32 draws away |
| `MessageIds.NoCallbackIsDropped` | src/callback_manager.cc:25-73 | with ids from MessageId, and fewer than 2^32 draws between an id passed to Add and the live items, over every run, every draw that is passed to Add becomes an item under the id that the counter gave it: no callback is dropped |
| `MessageIds.NoSweepIsEarly` | src/callback_manager.cc:25-173 | with fewer than 2^32 draws between an id passed to Add and the items being swept, over every run, no sweep times an item out early |
| `Wire.VarintRoundTrip` | bench/node.pb.cc:453-540 | every 64-bit value, and every 32-bit tag, is read back from its varint in front of any bytes |
| `Wire.VarintSpells` | bench/node.pb.cc:577-635 | a varint spells its number in base 128, lowest digit first, with the top bit set in every byte but the last, and without superfluous bytes |
| `Wire.ReadsCutToWidth` | bench/node.pb.cc:453-540 | any at most ten bytes that spell a number, over-long ones too, are read as that number cut to 64 bits, as a tag cut to 32, or as a length and that many bytes |
| `Wire.NoNumberWithoutVarint` | bench/node.pb.cc:453-540 | nothing else is read as a number, a tag or a length |
| `Wire.VarintLength` | bench/node.pb.cc:744-801 | the computed varint size is the number of bytes written |
| `Wire.Int32RoundTrip` | bench/node.pb.cc:476-545 | a 32-bit value survives sign extension to 64 bits and the cut back |
| `Wire.Int32IsTwosComplement` | bench/node.pb.cc:476-545 | a negative int32 is on the wire as 2^64 plus its value; reading keeps a number modulo 2^32 |
| `Wire.NegativeTakesTenBytes` | bench/node.pb.cc:728-753 | every negative 32-bit value takes ten bytes |
| `Wire.FieldsRoundTrip` | bench/node.pb.cc:447-575 | any well-formed records, with groups nested within the limit, are read back from their bytes |
| `Wire.RecordLayout` | bench/node.pb.cc:577-635 | eight times the field number plus the kind, as the specification numbers the kinds, and then the payload |
| `Wire.PayloadShape` | bench/node.pb.cc:556-566 | number, kind and fixed-size payload of a record that is read, and the tags that are refused |
| `Wire.ReadFieldsConcat` | bench/node.pb.cc:447-575 | the records of a concatenation are the records of the two parts |
| `Wire.WholeIsUntilStop` | bench/node.pb.cc:451-575 | input is a well-formed message exactly when the parse loop sees well-formed records and no zero or unreadable tag before the end |
| `Wire.UntilStopBehindRecords` | bench/node.pb.cc:451-575 | behind well-formed records the parse loop goes on as it would without them |
| `Wire.UntilStopAtOnce` | bench/node.pb.cc:555-575 | it stops without an error at a zero or unreadable tag and fails at a malformed record |
| `Wire.FieldsLength` | bench/node.pb.cc:757-808 | the size computed field by field is the number of bytes written |
| `NodeMessages.ParseIsMerge` | bench/node.pb.cc:447-575 | parsing into a message that holds something is merging the parsed message into it |
| `NodeMessages.NodeConcatIsMerge` | bench/node.pb.cc:825-860 | for all byte strings that parse, parsing the concatenation is merging: last value per field, presence united, unknown records appended |
| `NodeMessages.NodeRoundTrip` | bench/node.pb.cc:447-635 | parsing the bytes of a node gives it back: presence, negative numbers, arbitrary bytes, unknown records |
| `NodeMessages.NodeLayout` | bench/node.pb.cc:577-635 | the bytes of a node: each present field in order under its own tag, negative numbers in 64-bit two's complement, and the unknown records |
| `NodeMessages.NodeLastOneWins` | bench/node.pb.cc:447-575 | each field is the last record of its number and kind, or what it was before; every other record is kept in order |
| `NodeMessages.ReserializedNodeParsesSame` | bench/node.pb.cc:447-635 | whatever bytes a node was parsed from, writing and parsing it again gives the same node |
| `NodeMessages.AllNodesConcatIsMerge` | bench/node.pb.cc:1094-1102 | for lists, parsing the concatenation appends nodes and unknown records |
| `NodeMessages.AllNodesRoundTrip` | bench/node.pb.cc:967-1029 | a list of nodes round-trips, and ParseFromString accepts it exactly when every node has its required fields |
| `NodeMessages.AllNodesLayout` | bench/node.pb.cc:1009-1029 | the bytes of a list: tag 10, size and bytes of each node in order, and the unknown records |
| `NodeMessages.ListFailsExactlyOnBadNode` | bench/node.pb.cc:967-1007 | well-formed records fail to parse as a list exactly when a nested node fails |
| `NodeMessageClass.MergedWordsDecode` | bench/node.pb.cc:825-860 | merging has-bits words and fields, with the early test of all bits, is merging the messages they stand for |
| `NodeMessageClass.KnownFieldsSize` | bench/node.pb.cc:702-808 | what both size paths add up is the size of the known fields |
| `NodeMessageClass.NodeMessage.SetNodeId` | bench/node.pb.h:1376-1381 | sets one field and its presence and leaves all others |
| `NodeMessageClass.NodeMessage.IsInitialized` | bench/node.pb.cc:876-880 | the mask test holds exactly when the required fields are present |
| `NodeMessageClass.NodeMessage.MergeFrom` | bench/node.pb.cc:825-860 | leaves the merge of both messages |
| `NodeMessageClass.NodeMessage.MergePartialFromCodedStream` | bench/node.pb.cc:447-575 | the loop fails exactly on a malformed record, and otherwise leaves the message merged with the records before the end or before a tag that is zero or unreadable; with its input used up, that is the whole input |
| `NodeMessageClass.NodeMessage.RequiredFieldsByteSizeFallback` | bench/node.pb.cc:702-755 | the slow path adds up the same size as the fast path |
| `NodeMessageClass.NodeMessage.ByteSizeLong` | bench/node.pb.cc:757-808 | the size, on either path, is the number of bytes the serializers write |
| `NodeMessageClass.NodeMessage.SerializeWithCachedSizes` | bench/node.pb.cc:577-635 | appends the message's bytes to the stream |
| `NodeMessageClass.NodeMessage.InternalSerializeWithCachedSizesToArray` | bench/node.pb.cc:637-700 | writes the same bytes in place, touches no others and returns the position behind them |
| `AllNodesMessageClass.AllNodesMessage.MergeFrom` | bench/node.pb.cc:1094-1102 | appends the other list's nodes and unknown records |
| `AllNodesMessageClass.AllNodesMessage.IsInitialized` | bench/node.pb.cc:1118-1121 | holds exactly when every nested node has its required fields |
| `AllNodesMessageClass.AllNodesMessage.MergePartialFromCodedStream` | bench/node.pb.cc:967-1007 | the same for the list, with nested messages that must use up their bytes |
| `AllNodesMessageClass.AllNodesMessage.ParseFromString` | bench/node.pb.cc:967-1007 | replaces the message by the parsed one exactly when the whole input parses and is initialized |
| `AllNodesMessageClass.AllNodesMessage.ByteSizeLong` | bench/node.pb.cc:1054-1077 | the size of nested messages is the number of bytes written |
| `AllNodesMessageClass.AllNodesMessage.SerializeWithCachedSizes` | bench/node.pb.cc:1009-1029 | appends the bytes of all nodes and unknown records |
| `AllNodesMessageClass.AllNodesMessage.InternalSerializeWithCachedSizesToArray` | bench/node.pb.cc:1031-1052 | the same bytes in place |
| `LedgerMessages.LastOneWins` | proto/ledger.pb.cc:218-276 | a parse stores the last ip and the last port, the port modulo 2^32, keeps fields that are not mentioned, and keeps every other record in order |
| `LedgerMessages.FailsExactlyOnBadText` | proto/ledger.pb.cc:227-240 | well-formed records fail to parse as an endpoint exactly when some ip is not UTF-8 |
| `LedgerMessages.EndpointLayout` | proto/ledger.pb.cc:278-304 | the bytes of an endpoint: tag 10 before an ip that is not empty, tag 16 before a port that is not zero, unknown records if they are preserved |
| `LedgerMessages.EndpointRoundTrip` | proto/ledger.pb.cc:218-335 | an endpoint with valid UTF-8 round-trips although empty ips and zero ports are not written |
| `LedgerMessages.EndpointConcatIsMergeUnlessReset` | proto/ledger.pb.cc:380-394 | parsing a concatenation is merging exactly when the second string does not reset to its default a field that the first has set |
| `LedgerMessages.ExplicitZeroResetsPort` | proto/ledger.pb.cc:380-394 | an explicit zero port behind port 80 parses to no port, but merges to port 80 |
| `LedgerMessages.CanonicalConcatIsMerge` | proto/ledger.pb.cc:278-394 | for bytes that the serializer wrote, concatenation is always merge |
| `LedgerMessages.CacheConcatIsMerge` | proto/ledger.pb.cc:617-625 | for endpoint lists, concatenation is list concatenation, for all bytes that parse |
| `LedgerMessages.CacheRoundTrip` | proto/ledger.pb.cc:490-552 | a list of endpoints round-trips |
| `LedgerMessages.CacheLayout` | proto/ledger.pb.cc:532-552 | the bytes of a list: tag 10, size and bytes of each endpoint in order, and the preserved unknown records |
| `LedgerMessages.ListFailsExactlyOnBadEndpoint` | proto/ledger.pb.cc:490-530 | well-formed records fail to parse as a list exactly when a nested endpoint fails |
| `LedgerMessageClass.EndpointMessage.MergeFrom` | proto/ledger.pb.cc:380-394 | leaves the merge of both messages |
| `LedgerMessageClass.EndpointMessage.MergePartialFromCodedStream` | proto/ledger.pb.cc:218-276 | the loop fails exactly on a malformed record or an ip that is not UTF-8, and otherwise leaves the message with the records before the end or before a tag that is zero or unreadable |
| `LedgerMessageClass.EndpointMessage.ByteSizeLong` | proto/ledger.pb.cc:337-363 | the size is the number of bytes written |
| `LedgerMessageClass.EndpointMessage.SerializeWithCachedSizes` | proto/ledger.pb.cc:278-304 | appends the endpoint's bytes |
| `LedgerMessageClass.EndpointMessage.InternalSerializeWithCachedSizesToArray` | proto/ledger.pb.cc:306-335 | the same bytes in place |
| `LedgerMessageClass.CacheMessage.MergeFrom` | proto/ledger.pb.cc:617-625 | appends endpoints and unknown records |
| `LedgerMessageClass.CacheMessage.MergePartialFromCodedStream` | proto/ledger.pb.cc:490-530 | the same for the list, with nested endpoints that must use up their bytes |
| `LedgerMessageClass.CacheMessage.ByteSizeLong` | proto/ledger.pb.cc:577-600 | the size is the number of bytes written |
| `LedgerMessageClass.CacheMessage.SerializeWithCachedSizes` | proto/ledger.pb.cc:532-552 | appends the list's bytes |
| `NodeRegistry.SaveThenLoad` | bench/node.cc:135-222 | loading a saved file lists the registry in order, minus entries under the local id, each node with exactly its saved fields |
| `NodeRegistry.FileSays` | bench/node.cc:135-175 | the file holds every node of the list in order and then the local one, each of the seven fields under its own name |
| `NodeRegistry.ListedOne` | bench/node.cc:199-218 | a message under the local id is skipped; another is taken over field by field, its ports cut to 16 bits |
| `NodeRegistry.ListedConcat` | bench/node.cc:197-218 | messages are listed one by one in the order of the file |
| `NodeRegistry.IndexedIsLast` | bench/node.cc:218-219 | after a load the map finds the last of the nodes listed under an id |
| `NodeRegistry.SaveThenLoadMirrors` | bench/node.cc:135-222 | from a registry of distinct ids, the loaded list has distinct ids without the local one, and the map mirrors it |
| `NodeRegistry.LoadMirrorsExactlyWhenDistinct` | bench/node.cc:177-222 | after a load the map mirrors the list exactly when the listed ids are distinct; the id sets agree in any case |
| `NodeRegistry.Registry.OnCommandSave` | bench/node.cc:135-175 | the file holds all registered nodes and then the local one |
| `NodeRegistry.Registry.OnCommandLoad` | bench/node.cc:177-222 | replaces list and map by the parsed ones, skipping the local id; a file that does not parse changes nothing |
| `NodeRegistry.Registry.HandleBootstrapJoinRequest` | bench/node.cc:1210-1251 | on the first node, appends an unknown id with its bucket; keeps the map mirroring the list |
| `QueryStatistics.HopsAreTheHistory` | bench/node.cc:352-369 | after any answers since ClearQuery, a bucket exists exactly for hop counts that were heard, with one node per answer, the sum, the true maximum, and the smaller of 9999 and the true minimum of the delays |
| `QueryStatistics.BucketListsSenders` | bench/node.cc:1031-1043 | a bucket lists the registered nodes of the senders of its answers, in order of arrival |
| `QueryStatistics.BucketsHoldAllAnswers` | bench/node.cc:1026-1043 | the sizes of all buckets add up to the number of valid answers |
| `QueryStatistics.FoundIsAnswered` | bench/node.cc:1003-1045 | an id is found exactly when an answer with a non-negative delay came from it; known are the registered ids and those heard from |
| `QueryStatistics.AverageIsBetween` | bench/node.cc:427-447 | the printed average lies between the printed minimum and maximum |
| `QueryStatistics.Query.HandleConn2Response` | bench/node.cc:1003-1045 | counts an answer exactly when it parses and is for this very node or sent directly, relays it exactly when this node is not its destination, and changes nothing otherwise |
| `QueryStatistics.Query.ClearQuery` | bench/node.cc:352-369 | forgets all answers and lists the registered ids as not found |
| `DxipIndex.RunKeeps` | src/local_node_info.cc:111-144 | with operations on one node serialized and a dxip held by one node at a time, every interleaving of the halves keeps the maps consistent with the operations under way |
| `DxipIndex.QuiescentMapsAreInverse` | src/local_node_info.cc:111-154 | in every quiescent state of such a run the maps are mutual inverses, and HasDynamicXip tells whether some node holds the dxip |
| `DxipIndex.MapsAreTheHistory` | src/local_node_info.cc:111-154 | in every quiescent state of such a run, a node has a dxip, in both maps, exactly when giving it was the last thing done to that node, whatever was done to others |
| `DxipIndex.AddKeepsInverseExactlyWhen` | src/local_node_info.cc:111-120 | undisturbed, AddDxip keeps the maps inverse exactly when the node has no other dxip and the dxip no other node |
| `DxipIndex.DropKeepsInverse` | src/local_node_info.cc:122-144 | undisturbed, DropDxip keeps them inverse and leaves nothing of the node |
| `DxipIndex.ReuseDuringDropExactlyBreaks` | src/local_node_info.cc:111-144 | however the halves of dropping one node and adding another interleave, with a free dxip or the dropped one, the maps end inverse exactly when the dxip is not the dropped one or the second half of the add comes last |
| `DxipIndex.LocalNodeInfo.AddDxip` | src/local_node_info.cc:111-120 | the method is its two halves in a row, and leaves every other node and dxip alone |
| `DxipIndex.LocalNodeInfo.DropDxip` | src/local_node_info.cc:122-144 | the method is its two halves in a row; it removes the node and its dxip only, and nothing for a node without a dxip |
| `DxipIndex.LocalNodeInfo.HasDynamicXip` | src/local_node_info.cc:147-154 | answers from the dxip map |
| `DynamicXips.FieldsRecombine` | src/dynamic_xip_manager.cc:12-15 | the four fields fit a byte each, do not overlap, and give back the low 24 bits of the id |
| `DynamicXips.FieldsAreDigits` | src/dynamic_xip_manager.cc:12-15 | with n the number of the id: local is n % 256, switch n / 256 % 256, router n / 65536 % 16, process 16 * (n / 2^20 % 16) |
| `DynamicXips.CounterIsNumber` | src/dynamic_xip_manager.cc:33 | the counter after k dispatches is the start plus k, modulo 2^32 |
| `DynamicXips.DispatchesAgreeExactlyWhen` | src/dynamic_xip_manager.cc:28-39 | from any start, two dispatches on one local xip give the same xip exactly when their distance is a multiple of 2^24 |
| `DynamicXips.AddOverwritesExactlyWhen` | src/dynamic_xip_manager.cc:41-45 | AddClientNode finds its key taken exactly when a present client's dispatch lies a multiple of 2^24 away on the same local xip |
| `DynamicXips.RunKeepsClients` | src/dynamic_xip_manager.cc:28-64 | over every run within that window, every client present is found under its own xip: none is overwritten or removed for another |
| `DynamicXips.DynamicXipManager.DispatchDynamicXip` | src/dynamic_xip_manager.cc:28-39 | is the step Dispatch of a run: the counter is one higher modulo 2^32, and the xip carries each of its fields at its place |
| `DynamicXips.DynamicXipManager.AddClientNode` | src/dynamic_xip_manager.cc:41-45 | under a dispatched xip is the step Add of a run; within the window it finds the key free and keeps every client under its own xip |
| `DynamicXips.DynamicXipManager.RemoveClientNode` | src/dynamic_xip_manager.cc:47-54 | under a dispatched xip is the step Remove of a run, and within the window keeps every other client |
| `DynamicXips.DynamicXipManager.FindClientNode` | src/dynamic_xip_manager.cc:56-64 | within the window, the xip of a dispatch leads to the client added for that dispatch and not removed since, and to none when there is no such client |
| `ServiceCache.NodesAreSuffixOfHistory` | src/bootstrap_cache_helper.cc:136-262 | in every reachable state a service's vector is all that was ever appended for it without its 4 x (overflowing appends) oldest nodes |
| `ServiceCache.NeverEmptyAgain` | src/bootstrap_cache_helper.cc:136-262 | once it has a node, a service never becomes empty again |
| `ServiceCache.BoundedExactlyForSmallFetches` | src/bootstrap_cache_helper.cc:173-190 | vectors stay within 8 nodes in every run exactly when fetches answer at most 4; otherwise there is no bound at all |
| `ServiceCache.StepWithin` | src/bootstrap_cache_helper.cc:173-190 | with fetches of at most 4 an append reaches 12 at most before the cut, and 8 after it |
| `ServiceCache.BootstrapCacheHelper.CacheServicePublicNodes` | src/bootstrap_cache_helper.cc:136-197 | exactly for a wanted service with nodes to add, appends them, and then drops the first four if there are more than eight; other services stay |
| `ServiceCache.BootstrapCacheHelper.GetCacheServicePublicNodes` | src/bootstrap_cache_helper.cc:213-262 | adds the endpoints cached for the service, or of one fetch that is then cached if there are none, and succeeds exactly when there are some in the end; other services stay |
| `ServiceCache.BootstrapCacheHelper.SetCacheServiceType` | src/bootstrap_cache_helper.cc:199-211 | adds a wanted service and nothing else |
| `ServiceCache.BootstrapCacheHelper.GetRandomCacheServiceType` | src/bootstrap_cache_helper.cc:104-126 | some wanted service, or the invalid type when there is none or nothing can be fetched |
| `ServiceCache.BootstrapCacheHelper.RepeatCacheServicePublicNodes` | src/bootstrap_cache_helper.cc:128-134 | a tick caches some wanted service when there is one and nodes can be fetched, and changes nothing otherwise |
| `EndpointLists.TextInjective` | src/bootstrap_cache_helper.cc:269-284 | two endpoints have the same text exactly when they are equal, even with colons in the ip |
| `EndpointLists.TextReads` | src/bootstrap_cache_helper.cc:273-275 | the text is the ip, a colon and the digits that spell the port |
| `EndpointLists.DistinctCovers` | src/bootstrap_cache_helper.cc:264-319 | the rebuilt list has no duplicates and covers exactly the input |
| `EndpointLists.DistinctInOrder` | src/bootstrap_cache_helper.cc:264-319 | it is in the order of first occurrence |
| `EndpointLists.PublicEndpoints.DumpPublicEndpoints` | src/bootstrap_cache_helper.cc:264-291 | rebuilds both lists from the public nodes, parallel and without duplicates, and hands them on unless empty |
| `EndpointLists.PublicEndpoints.LoadBootstrapCache` | src/bootstrap_cache_helper.cc:293-319 | rebuilds both lists from the cache, or keeps them if there is none |
| `EndpointLists.DumpThenLoad` | src/bootstrap_cache_helper.cc:264-319 | loading what a dump handed out reproduces both lists |
| `MessageIdentities.LessIsStrictTotal` | routing_table/routing_utils.h:118-128 | operator< is a strict total order |
| `MessageIdentities.LessIsLexicographic` | routing_table/routing_utils.h:118-128 | the smaller message id is less, and between equal ones the node id that is a proper prefix or has the smaller first different character |
| `MessageIdentities.TextTellsIdentity` | routing_table/routing_utils.h:115-128 | two identities print alike exactly when neither is less than the other, for every node id |
| `MessageIdentities.TextReads` | routing_table/routing_utils.h:115-117 | the text is the message id as a signed 32-bit decimal, an underscore and the node id |
| `XorMetric.CloserComparesDistances` | src/routing_table.cc:1215-1227 | CloserToTarget compares the xor distances, read as big-endian numbers |
| `XorMetric.DistanceOfConcat` | src/routing_table.cc:1215-1227 | in the distance earlier bytes count more, each 256 times the next |
| `XorMetric.DistanceOfBytes` | src/routing_table.cc:1215-1227 | the distance of two bytes is their xor |
| `XorMetric.DistanceTells` | src/routing_table.cc:1215-1227 | different ids are at different distances from every target |
| `XorMetric.BucketIsBitLength` | src/routing_table.cc:1148-1170 | the bucket index of another node is the bit length of its distance |
| `XorMetric.BucketRange` | src/routing_table.cc:1148-1170 | indexes run from 1 to 8 * kNodeIdSize, and 0 is the local id alone |
| `XorMetric.CloserIsInNoHigherBucket` | src/routing_table.cc:1148-1227 | of two ids the one closer to the local id is in no higher a bucket |
| `XorMetric.BucketPeersAgree` | src/routing_table.cc:1148-1227 | ids in one bucket are closer than the local id to a target all or none |
| `XorMetric.CloserToTarget` | src/routing_table.cc:1215-1227 | the byte loop decides the order |
| `XorMetric.SetNodeBucket` | src/routing_table.cc:1148-1170 | the byte and bit loops compute the bit length of the distance and fail exactly for the local id |
| `KBuckets.TableFits` | routing_table/routing_utils.h:130-136 | a table whose buckets hold at most 8 nodes has at most kRoutingMaxNodesSize, so searches that look at that many see every node |
| `KBuckets.RunKeepsBuckets` | src/routing_table.cc:755-927 | over every interleaving of critical sections no bucket exceeds 8 nodes and no table its maximum |
| `KBuckets.RunKeepsMirror` | src/routing_table.cc:755-927 | with operations on one id serialized, whatever interleaves, the map mirrors the vector and no id is held twice whenever none is under way |
| `KBuckets.PushEffect` | src/routing_table.cc:783-806 | a push appends the node exactly when its bucket has fewer than 8 and the map does not have its id |
| `KBuckets.InsertEffect` | src/routing_table.cc:808-811 | an id that the map has keeps its node |
| `KBuckets.DropEffect` | src/routing_table.cc:889-907 | the sections of a drop leave all nodes of other ids as they are and in order |
| `KBuckets.RacingAddsDuplicateExactlyWhen` | src/routing_table.cc:783-819 | for any number of racing adds of one new id in any order of their sections: the copies held afterwards are as many as push before the first insertion, up to the places left in the bucket; so it is held twice exactly when two push before any inserts and two places were left |
| `RoutingTables.FirstOfSorted` | src/routing_table.cc:1072-1093 | the first node of a sorted vector that passes a filter is a closest one of those that do |
| `RoutingTables.ClosestIsUnique` | src/routing_table.cc:1072-1093 | with distinct ids the closest node is unique |
| `RoutingTables.PartialSort` | src/routing_table.cc:1183-1197 | puts the closest nodes first in order and permutes |
| `RoutingTables.RoutingTable.HasNode` | src/routing_table.cc:1120-1124 | the map answers for the vector |
| `RoutingTables.RoutingTable.NewNodeReplaceOldNode` | src/routing_table.cc:1229-1245 | whether the node's bucket has fewer than 8 nodes |
| `RoutingTables.RoutingTable.SortNodesByTargetXid` | src/routing_table.cc:1183-1197 | sorts up to the number asked for and keeps the nodes |
| `RoutingTables.RoutingTable.AddNode` | src/routing_table.cc:755-829 | each result with its exact condition in terms of the node and the table; on success the node is last, in vector and map, with its bucket; otherwise the nodes stay the same |
| `RoutingTables.RoutingTable.CanAddNode` | src/routing_table.cc:849-887 | answers exactly whether AddNode would succeed |
| `RoutingTables.RoutingTable.DropNode` | src/routing_table.cc:889-927 | removes the id from vector and map and nothing else |
| `RoutingTables.RoutingTable.GetClosestNodes` | src/routing_table.cc:1095-1118 | the closest nodes in order, as many as asked for and there are |
| `RoutingTables.RoutingTable.GetClosestNode` | src/routing_table.cc:1072-1093 | the closest node of the whole table outside the excluded ids, if there is one |
| `RoutingTables.RoutingTable.ClosestToTarget` | src/routing_table.cc:1045-1070 | whether no node of the table is closer to the target, and when it cannot say |
| `RoutingTables.RoutingTable.IsDestination` | src/routing_table.cc:1482-1501 | the local id, or, if asked to settle for it, a target that no node known is closer to |
| `RoutingTables.RoutingTable.SendToClosestNode` | src/routing_table.cc:384-440 | sends exactly when the target is another id, the node is first or has joined, no hop repeats and some node at another endpoint has not had the message, and then to a closest one of those |
| `RoutingTables.NextMeans` | src/routing_table.cc:384-440 | the same of the choice that the network theorems are about |
| `GreedyRouting.WayHasNoLoop` | src/routing_table.cc:405-440 | whatever the tables hold, a message visits no node twice |
| `GreedyRouting.WayApproaches` | bench/node.cc:968-984 | unless the origin already knows none closer, every hop of every way is strictly closer to the target |
| `GreedyRouting.NextIsCloser` | bench/node.cc:968-984 | a relay that is not the destination sends to a strictly closer node |
| `GreedyRouting.NoneCloserIsGlobal` | src/routing_table.cc:1045-1070 | if each node knows one node of each bucket that is not empty, a node that knows none closer is the closest of the network |
| `GreedyRouting.OnlyTargetIsDestination` | src/routing_table.cc:1482-1501 | in such a network a message for an existing node stops nowhere else |
| `GreedyRouting.MessageSettles` | bench/node.cc:968-988 | for any target, every way from an origin that is no destination can be prolonged, in no more hops than there are nodes, to the node that is closer to the target than every other: the target, or the node that reports that it cannot be found |
| `GreedyRouting.MessageArrives` | bench/node.cc:968-984 | every way of a message for an existing node can be prolonged to that node, in no more hops than there are nodes |
| `GreedyRouting.TwoNodesMeet` | src/routing_table.cc:755-829 | networks as these theorems ask for exist: two nodes that add each other make one |

## Left out

- The `TestConn*` and `TestReportNodes` messages of `bench/node.pb.cc`: the same generated shape with fewer field kinds; they would add easy members.
- Reflection, descriptors, arenas, cached-size fields, swap and static initialization of the generated code.
- `AllNodes` and `PbBootstrapCache` hold their nested messages as values, not as owned objects, so aliasing between nested messages is not captured.
- NodeMessageClass.NodeMessage.MergePartialFromCodedStream: does not model lengths of 2^31 and more: any such length varint is malformed here, where the protobuf library, which is not part of this model, may keep the low 32 bits of one; and it does not say what the message holds after a malformed record, because callers discard it.
- AllNodesMessageClass.AllNodesMessage.MergePartialFromCodedStream: the same two limits.
- AllNodesMessageClass.AllNodesMessage.ParseFromString: the same limit on lengths.
- LedgerMessageClass.EndpointMessage.MergePartialFromCodedStream: the same two limits.
- LedgerMessageClass.CacheMessage.MergePartialFromCodedStream: the same two limits.
- `CallbackItemPtr` shares one item between caller and table; items are values here, so a caller changing an item it has added is not captured. A count or timeout that starts at the smallest 32-bit value would overflow when decremented; the model does not wrap.
- Real time: threads, sleeping, timers and clocks are steps that may happen at any time. Sockets, logging, files (byte strings here) and console commands are not modelled.
- `HandleGetrt2Response`, `CompareDiffLines` and the `AutoTest` streak loops of `bench/node.cc`: text comparison and retries around the modelled queries.
- `LocalNodeInfo` apart from the two dxip maps; `GetXipParser` for clients picks the first dxip.
- `get_public_nodes_` and `SetCache`/`GetCache`: what they answer is a parameter; the bodies of the latter are stubs.
- RoutingTables.RoutingTable.DropNode: leaves out the hash map, the dxip of the node and the join guard, which are updated beside the vector and the map.
- RoutingTables.RoutingTable.AddNode: leaves out the hash map and the copy of the vector for lock-free readers.
- `SortNodesByTargetXip` and searches by xip: the same sort on another string.
- Bootstrap, NAT detection, heartbeats, find-neighbour rounds and bloom filters of `src/routing_table.cc`; gossip.
- GreedyRouting.MessageSettles: tables do not change while a message travels, and no message is lost on the network.
- `heartbeat_state`, `client_node_manager`, `heartbeat_manager` and `nodeid_utils`: commented out, or plain map operations.
