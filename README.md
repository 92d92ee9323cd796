# Produce request model

This project models sarama's in-memory Produce request (Kafka API key 0).

- The request holds a nested map from topic to partition to record container. Each container is a legacy message set or a default record batch, and containers are shared by reference.
- Mutators add messages, sets and batches to that map.
- A wire codec writes the request to the Kafka byte layout and reads it back. The transactional id is present only from version 3. Each partition's container sits behind an int32 length field that is back-filled.
- A topic rewrite pass (`changeTopic`) finds the first message that a topic rule matches and moves it to the broker topic the rule names.
- Record counting and a version table complete it.

Modules:

- `Wrappers`: `Option` and `Result`.
- `Packet`: big-endian INT16/INT32, STRING, NULLABLE_STRING and ARRAY primitives, as pure byte functions. It also has a `PacketEncoder` class that back-fills pushed length fields and a `PacketDecoder` class with a read offset. Both are minimal stand-ins for sarama's encoder and decoder interfaces.
- `Containers`: messages and records. `MessageSet` and `RecordBatch` are classes, so aliasing is real. `Records` says which of the two a partition holds. A `ContainerCodec` parameter stands for a container's own byte format. This module also does the record counting.
- `ProduceWire`: the request's byte layout as pure functions, and the round-trip lemmas. Encoding follows an explicit `Order`, the walk over topics and partitions, because Go map iteration order is unspecified.
- `Rewrite`: the rewrite pass on values. `FindMatch` is the scan. `AsWritten` is what the code does to the map. `Moved` is what it evidently means to do.
- `Produce`: the `ProduceRequest` class with its fields, mutators and `Encode`/`Decode` methods, plus `ChangeTopic` and `RequiredVersion`. `View()` is the map with every container replaced by its content. `Unshared()` means that no two partitions hold the same container object.

## Model

| member | source | states |
|---|---|---|
| Produce.ProduceRequest.RequiredVersion | produce_request.go:285-298 | 1, 2, 3 and 7 map to V0_9_0_0, V0_10_0_0, V0_11_0_0 and V2_1_0_0, each as an if-and-only-if; every other version maps to MinVersion |
| Produce.ProduceRequest.constructor | produce_request.go:26-32 | a request with the given header fields and the nil map |
| Produce.ProduceRequest.EnsureRecords | produce_request.go:300-308 | afterwards the map exists and has an entry for the topic; an existing entry is kept and nothing else changes |
| Produce.ProduceRequest.AddSet | produce_request.go:322-325 | topic/partition holds the set and every other entry is unchanged; the view changes only there; the map stays unshared if the set was not already held |
| Produce.ProduceRequest.AddBatch | produce_request.go:327-330 | the same as AddSet, for a record batch |
| Produce.ProduceRequest.Install | produce_request.go:322-330 | the shared step of AddSet and AddBatch: the map is the old one with the container placed at topic/partition, and the view matches |
| Produce.ProduceRequest.AddMessage | produce_request.go:310-320 | an existing message set at topic/partition gets the message appended; a partition with no set (absent, or a batch) gets a fresh set holding only the message; the map changes at that partition alone; an unshared map stays unshared and its view gains the message there |
| Produce.ProduceRequest.AppendBlock | produce_request.go:319 | the set gains the block at its end; when unshared, the view changes only at that partition |
| Produce.ProduceRequest.InstallSet | produce_request.go:313-317 | a fresh set holding just the message replaces what was at topic/partition; unsharedness is kept and the view gains the message |
| Containers.MessageSet.AddMessage | produce_request.go:319 | the set's messages gain one block at offset 0 at the end |
| Containers.UpdateMsgSetMetrics | produce_request.go:103-125 | the loop's total equals LegacyRecordCount: a wrapper counts its inner messages, a plain message counts one |
| Containers.LegacyRecordCountAppend | produce_request.go:106-113 | the count of two runs of blocks is the sum of their counts |
| Containers.UncompressedCountIsLength | produce_request.go:111-112 | without wrappers the count is the number of messages |
| Containers.UpdateBatchMetrics | produce_request.go:127-136 | a batch counts its records |
| Packet.PacketEncoder.PutInt16 | produce_request.go:144 | appends the value's two big-endian bytes |
| Packet.PacketEncoder.PutInt32 | produce_request.go:145 | appends the value's four big-endian bytes |
| Packet.PacketEncoder.PutArrayLength | produce_request.go:155-158 | appends the count as INT32, or fails with nothing written when it does not fit |
| Packet.PacketEncoder.PutString | produce_request.go:161-164 | appends the INT16 length and the bytes, or fails when the length does not fit |
| Packet.PacketEncoder.PutNullableString | produce_request.go:139-143 | appends -1 for null, else the string, or fails when the length does not fit |
| Packet.PacketEncoder.Push | produce_request.go:177 | reserves four bytes and remembers where they are |
| Packet.PacketEncoder.Pop | produce_request.go:182-185 | back-fills the reserved field with the number of bytes written after it, or fails when that does not fit in INT32 |
| Packet.BackfillFrames | produce_request.go:176-185 | back-filling a field reserved right after the partition id gives the id, the length and then the payload |
| Packet.PacketDecoder.GetInt16 | produce_request.go:221-224 | reads two big-endian bytes and advances past them, as ReadInt16 says, or fails with InsufficientData |
| Packet.PacketDecoder.GetInt32 | produce_request.go:250-257 | reads four bytes as ReadInt32 says, or fails |
| Packet.PacketDecoder.GetArrayLength | produce_request.go:229-232 | reads a count; a negative count or too few bytes is an error |
| Packet.PacketDecoder.GetString | produce_request.go:239-242 | reads a length-prefixed string; a negative length or too few bytes is an error |
| Packet.PacketDecoder.GetNullableString | produce_request.go:215-218 | reads -1 as null, else a string; a length below -1 is an error |
| Packet.PacketDecoder.GetSubset | produce_request.go:258-261 | takes exactly `size` bytes and advances past them; a negative size or too few bytes is an error |
| Packet.Int16RoundTrip | produce_request.go:144 | reading two encoded bytes gives the INT16 back |
| Packet.Int32RoundTrip | produce_request.go:145 | reading four encoded bytes gives the INT32 back |
| Packet.ReadNullableStringInverse | produce_request.go:140 | reading an encoded nullable string gives it back and the bytes after it |
| Packet.ReadStringInverse | produce_request.go:161 | reading an encoded string gives it back and the bytes after it |
| Packet.ReadArrayLengthInverse | produce_request.go:155 | reading an encoded count gives it back and the bytes after it |
| Packet.ReadSubsetInverse | produce_request.go:258 | a subset of the payload's length gives the payload and the bytes after it |
| Produce.WriteHeader | produce_request.go:139-145 | writes the transactional id only from version 3, then the acks and the timeout, which is exactly EncodeHeader; an error stops it |
| Produce.WritePartition | produce_request.go:175-185 | writes the id, the back-filled length and the container's bytes, which is exactly EncodePartition; a codec or length error is reported |
| Produce.WritePartitions | produce_request.go:174-196 | writes the partitions in the given order, which is exactly EncodePartitionList; the first error is returned |
| Produce.WriteTopic | produce_request.go:161-168 | writes the name, the partition count and the partitions, which is exactly EncodeTopic |
| Produce.WriteTopics | produce_request.go:160-202 | writes the topics in the given order, which is exactly EncodeTopicList |
| Produce.ProduceRequest.Encode | produce_request.go:138-209 | the buffer gains exactly EncodeRequest of the request's value in the given order, or the first error is reported |
| Produce.ProduceRequest.ReadHeader | produce_request.go:214-227 | reads what DecodeHeader says; the id (only from version 3) and the acks are assigned once their read succeeds, and the timeout gets the INT32 read's value before its error is tested, so a failed timeout read leaves the decoder's `failedInt32` there; the fields are as HeaderRead says; the map and version are untouched |
| ProduceWire.HeaderRead | produce_request.go:214-227 | the fields after a partial read: when the whole header reads, the acks, the timeout and (from version 3) the id are the decoded ones; a failed id read changes nothing; with fewer than 2 bytes after the id the acks and timeout are the old ones; with 2 to 5 bytes the acks are read and the timeout is `failedInt32`; before version 3 the id is never touched |
| ProduceWire.FailedTimeoutReadAssigns | produce_request.go:221-228 | version 0 with bytes 0, 1, 0, 0: decoding fails with InsufficientData, yet the acks become 1 and the timeout becomes `failedInt32` |
| Produce.ReadPartition | produce_request.go:250-265 | the id, the size and a subset of that size, decoded by the codec into a fresh container; each error is the whole decode's error |
| Produce.ReadPartitionInto | produce_request.go:249-267 | one more partition goes into the map, a repeated id replacing the earlier container; its containers hold what DecodePartitions reads and are all distinct |
| Produce.ReadPartitions | produce_request.go:247-267 | the loop yields DecodePartitions' map with fresh, distinct containers, or its error |
| Produce.ReadTopic | produce_request.go:239-267 | reads a name, a count and that many partitions into a fresh map |
| Produce.ReadTopicInto | produce_request.go:238-268 | one more topic goes into the map, a repeated name replacing the earlier partitions; the view follows DecodeTopics and stays unshared |
| Produce.ReadTopics | produce_request.go:237-268 | the loop's map shows DecodeTopics' topics, with no container shared, or fails with its error |
| Produce.ReadBody | produce_request.go:229-268 | a topic count of 0 gives no map; otherwise the topics, as DecodeBody says |
| Produce.ProduceRequest.Decode | produce_request.go:211-271 | sets the version; the id only from version 3; acks and timeout; with a count of 0 the map is left as it was, otherwise the view is the decoded map and unshared; any read error is returned, with the header fields as HeaderRead gives them and the map as it was |
| ProduceWire.DecodeHeader | produce_request.go:214-228 | a decoded header carries no records |
| ProduceWire.DecodeHeaderInverse | produce_request.go:139-145 | decoding an encoded header gives the acks, the timeout and the id from version 3 |
| ProduceWire.DecodePartitionInverse | produce_request.go:176-185 | decoding one encoded partition gives the id and the container back, whatever follows |
| ProduceWire.DecodePartitionsInverse | produce_request.go:174-196 | decoding an encoded partition list folds its entries into the map, whatever follows |
| ProduceWire.DecodeTopicInverse | produce_request.go:160-202 | decoding one encoded topic gives its name and partition map back |
| ProduceWire.DecodeTopicsInverse | produce_request.go:160-202 | decoding an encoded topic list folds its entries into the map |
| ProduceWire.DecodeTopicMapInverse | produce_request.go:155-202 | decoding a map encoded in any order that walks it exactly once gives the map back |
| ProduceWire.RequestRoundTrip | produce_request.go:138-271 | decode(encode(r)) restores the acks, the timeout, the id from version 3 and the map; an empty map comes back as nil; decoding stops where the request ends |
| ProduceWire.LastPartitionEntryWins | produce_request.go:266 | when a partition id repeats, the map keeps the container of its last occurrence |
| ProduceWire.LastTopicEntryWins | produce_request.go:247 | when a topic name repeats, the map keeps the partitions of its last occurrence |
| ProduceWire.OversizedRecordLenRejected | produce_request.go:254-261 | a length field larger than the bytes left makes decode fail with InsufficientData |
| ProduceWire.OversizedRecordLenRejectsRequest | produce_request.go:211-261 | when the first partition of the first topic has such a length field, the whole request fails to decode with InsufficientData |
| Rewrite.FindInContent | produce_request.go:41-43 | the index found is the first entry in the container that the rule matches |
| Rewrite.FindInPartitions | produce_request.go:38-43 | a match lies in a partition listed in `ids` and every partition listed before it misses (FirstPartition); within its container it is the first entry matched; no match means every container misses |
| Rewrite.FindMatch | produce_request.go:35-43 | a match is in a ruled topic of the order; every ruled topic listed before it misses in every partition (FirstTopic), every partition of its topic listed before it misses, and it is the first entry matched in its container; no match means no entry of a ruled topic matches |
| Rewrite.FindMatchComplete | produce_request.go:35-100 | with an order that covers the whole map, no match means no ruled entry anywhere matches |
| Produce.ScanContainer | produce_request.go:41-43 | the loop over a container's entries finds what FindInContent specifies |
| Produce.ScanPartitions | produce_request.go:38-43 | the loop over a topic's partitions finds what FindInPartitions specifies |
| Produce.ScanTopic | produce_request.go:36-38 | a topic without a rule gives no match, otherwise the topic's first match |
| Produce.ScanTopics | produce_request.go:35-99 | the loop over topics finds what FindMatch specifies |
| Produce.ProduceRequest.FindFirstMatch | produce_request.go:35-99 | the match the scan finds is FindMatch of the request's view |
| Rewrite.TakeOut | produce_request.go:47-53 | removing an entry prunes the partition when it was the only entry, and the topic when it loses its last partition; everything else is unchanged |
| Rewrite.AsWritten | produce_request.go:47-90 | the move as the code performs it changes no partition other than the source and the destination |
| Rewrite.AsWrittenLegacy | produce_request.go:47-63 | the three legacy outcomes: a new destination shares the emptied source set holding only the moved message; a batch destination fails; an existing set gains the message at its end |
| Rewrite.Moved | produce_request.go:47-90 | the intended move changes no partition other than the source and the destination |
| Rewrite.MovedToOtherTopic | produce_request.go:47-63 | the source loses exactly the moved entry, in order, or is pruned; the destination keeps its entries and gains the entry at the end |
| Rewrite.MovedWithinTopic | produce_request.go:47-63 | moving within a topic puts the entry at the end of its own container |
| Produce.ProduceRequest.ChangeTopic | produce_request.go:34-101 | with no match the map and view are unchanged; otherwise the outcome is a nil dereference exactly when AsWritten fails; on success an unshared request's view is AsWritten of the old view, so at most one message moves; after a successful move the source and destination partitions hold the same set when the source survives and the destination is new (the aliasing at lines 58-63), and otherwise an unshared map stays unshared |
| Produce.ProduceRequest.MoveMessage | produce_request.go:41-65 | removes the matched message, then delivers it, with the same outcome and view as AsWritten; a surviving source and a new destination end up holding one set, and any other move keeps an unshared map unshared |
| Produce.ProduceRequest.RemoveMessage | produce_request.go:47-53 | the set loses the entry at the index; an emptied partition is pruned, then an emptied topic; an unshared view becomes TakeOut of the old view |
| Produce.ProduceRequest.DropPartition | produce_request.go:49-52 | the map is Prune of the old map |
| Produce.ProduceRequest.Deliver | produce_request.go:55-63 | appends at the destination, installs the emptied source set when the destination is new, or fails on a batch destination, exactly as AsWritten says; with a surviving source and a new destination both partitions hold the source's set, and otherwise a map unshared on entry, with the source set held at the source alone, stays unshared |
| Produce.ProduceRequest.InstallMoved | produce_request.go:58-63 | the source's set is emptied, placed at the destination and given the message; a surviving source partition holds the same set and shows the same single message; with the source pruned, an unshared map stays unshared |
| Produce.TakenOutView | produce_request.go:47-53 | after removal the view is TakeOut of the old view |
| Produce.InstalledView | produce_request.go:58-63 | after installing the shared set the view shows its content at the destination and, if still present, at the source |

## Left out

- Metrics: the registry, histograms, meters and the float compression ratio (produce_request.go:115-121, 129-133, 146-205) write to an external sink. Only the integer record counts are modelled. The batch-versus-set choice by version at line 187 is not modelled.
- sarama's real packet encoder and decoder are replaced by the minimal stand-ins in packet.dfy; the value the real decoder returns with a failed INT32 read is the stand-in's `failedInt32`, fixed at construction. The records type's own encode/decode and the `newLegacyRecords`/`newDefaultRecords` constructors are not part of this model. `MessageSet.addMessage` is defined outside produce_request.go; `Containers.MessageSet.AddMessage` models it as appending a block with offset 0. A container's bytes come from a `ContainerCodec` parameter, and the round trip assumes that codec inverts itself.
- `KafkaVersion` values are an enum, not version numbers.
- `key()`, `version()` and `headerVersion()` (produce_request.go:273-283) return constants or a field and are not modelled. `TopicRule.GetClientTopicByResponseTopic` (rule.go:9) is never called here.
- rule.go's `TopicRule` and `ClientTopicRule` interfaces (rule.go:3-18) are a record of functions. `GetClientTopicRule(topic).CheckIsReplaceTopic(k, v)` becomes `checkIsReplaceTopic(topic, k, v)`.
- The unknown records type arm (produce_request.go:94-95) only prints. Every container here is one of the two formats.
- Record counts are unbounded integers: 64-bit overflow of the counters is not modelled.
- Produce.ProduceRequest.Decode: only a successful read replaces the map, while the source makes the new map at line 237 before reading the topics, so a failed decode of a non-empty request leaves the source with a partial map.
- Produce.ProduceRequest.ChangeTopic: the view after a successful move is stated only for a request whose containers are unshared. With shared sets, one removal changes every partition holding the set. That the source and destination partitions hold one set after an aliasing move is stated for every request; that the map stays unshared after any other move is stated for an unshared request.
- MoveMessage: as for ChangeTopic, the view after the move is stated only for an unshared request.
- Deliver: the view after delivery is stated only when the map was unshared on entry and the source set was held at the source partition alone.
- Produce.ProduceRequest.Encode: it writes the view, that is the containers' contents at the time of the call, through the codec.
- Produce.ProduceRequest.AddMessage: the new view is stated only for an unshared request.
- Encode's iteration order is an explicit `Order` argument that must walk each map exactly once. Go's randomised map order is not modelled.

## Findings

| source | as written | input that shows it | evidently intended | confidence | as-written member | corrected member |
|---|---|---|---|---|---|---|
| produce_request.go:58-63 | when the destination partition is new, the matched partition's own container is emptied and installed there; a source partition that still holds other messages shares it and loses them | topic `a`, partition 0 holding messages with keys [1] and [2], a rule moving key [1] to topic `b`: afterwards both a/0 and b/0 hold only the [1] message | the source keeps its other messages and the destination gets a fresh container with the moved message | high (not executed) | Rewrite.AliasingLosesMessages | Rewrite.MovedToOtherTopic |
| produce_request.go:76 | the default-records branch tests emptiness through `MsgSet.Messages`, which is nil for a batch container | topic `a`, partition 0 holding a batch whose one record has key [1], the same rule: the test dereferences a nil message set | the branch tests `RecordBatch.Records` and prunes the emptied partition | high (not executed) | Rewrite.BatchBranchDereferencesNil | Rewrite.Moved |
