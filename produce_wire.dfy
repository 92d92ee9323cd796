/**
 * The byte layout of a Produce request (API key 0), as pure functions:
 *
 *   [version >= 3] transactional_id : NULLABLE_STRING
 *   required_acks : INT16
 *   timeout       : INT32
 *   topics        : ARRAY of (name : STRING, partitions : ARRAY of
 *                     (partition : INT32, record_len : INT32, records : record_len bytes))
 *
 * Encoding is stated over a list of topic entries, the order in which the
 * request's maps happen to be walked; decoding folds what it reads back into
 * maps, later entries replacing earlier ones under the same key.
 */
module ProduceWire {
  import opened Wrappers
  import opened Packet
  import opened Containers

  type Name = Bytes
  type Partitions = map<Int32, Content>
  type Topics = map<Name, Partitions>

  /** A produce request as a value: the containers are given by their content. */
  datatype RequestValue = RequestValue(
    transactionalId: Option<Name>,
    requiredAcks: Int16,
    timeout: Int32,
    version: Int16,
    records: Option<Topics>)  // None is the absent (nil) map

  /** The map an optional (possibly nil) map stands for. */
  function TopicsOf<V>(records: Option<map<Name, map<Int32, V>>>): map<Name, map<Int32, V>> {
    if records.Some? then records.value else map[]
  }

  // The order in which encode walks the topic map and each partition map.

  datatype Order = Order(topics: seq<Name>, partitions: map<Name, seq<Int32>>)

  predicate Distinct<T(==)>(s: seq<T>) {
    forall i, j :: 0 <= i < j < |s| ==> s[i] != s[j]
  }

  /** `s` lists every key of `m` exactly once. */
  predicate Enumerates<K(==), V>(s: seq<K>, m: map<K, V>) {
    Distinct(s) && (forall k :: k in s ==> k in m) && (forall k :: k in m ==> k in s)
  }

  /** Every topic and partition the order lists is in `m`. */
  predicate Within<V>(order: Order, m: map<Name, map<Int32, V>>) {
    forall t :: t in order.topics ==>
      t in m && t in order.partitions && forall p :: p in order.partitions[t] ==> p in m[t]
  }

  /** The order walks every topic and every partition of `m` exactly once. */
  predicate OrderFor<V>(order: Order, m: map<Name, map<Int32, V>>) {
    && Within(order, m)
    && Enumerates(order.topics, m)
    && forall t :: t in m ==> t in order.partitions && Enumerates(order.partitions[t], m[t])
  }

  lemma EnumeratesTail<K, V>(s: seq<K>, m: map<K, V>)
    requires s != [] && Enumerates(s, m)
    ensures Enumerates(s[1..], m - {s[0]})
  {
    forall k | k in m - {s[0]} ensures k in s[1..] {
      var j :| 0 <= j < |s| && s[j] == k;
      assert s[1..][j - 1] == k;
    }
  }

  lemma {:induction false} EnumeratesCard<K, V>(s: seq<K>, m: map<K, V>)
    requires Enumerates(s, m)
    ensures |s| == |m|
  {
    if s == [] {
      assert m == map[];
    } else {
      var m' := m - {s[0]};
      EnumeratesTail(s, m);
      EnumeratesCard(s[1..], m');
      assert m.Keys == m'.Keys + {s[0]};
    }
  }

  // The entries encode writes, in order.

  type PartitionEntry = (Int32, Content)

  datatype TopicEntry = TopicEntry(name: Name, partitions: seq<PartitionEntry>)

  function PartitionEntries(ps: Partitions, ids: seq<Int32>): (es: seq<PartitionEntry>)
    requires forall id :: id in ids ==> id in ps
    ensures |es| == |ids|
  {
    seq(|ids|, k requires 0 <= k < |ids| => (ids[k], ps[ids[k]]))
  }

  function TopicEntries(topics: Topics, order: Order): (es: seq<TopicEntry>)
    requires Within(order, topics)
    ensures |es| == |order.topics|
  {
    seq(|order.topics|, i requires 0 <= i < |order.topics| =>
      TopicEntry(order.topics[i], PartitionEntries(topics[order.topics[i]], order.partitions[order.topics[i]])))
  }


  /** The keys of `ks` that are in `m`, with their values. */
  function Restrict<K(!new), V>(m: map<K, V>, ks: seq<K>): (r: map<K, V>)
    ensures forall k :: k in r <==> k in ks && k in m
  {
    map k | k in ks && k in m :: m[k]
  }

  lemma RestrictStep<K(!new), V>(acc: map<K, V>, m: map<K, V>, ks: seq<K>)
    requires ks != [] && ks[0] in m
    ensures acc[ks[0] := m[ks[0]]] + Restrict(m, ks[1..]) == acc + Restrict(m, ks)
  {
    forall k | k in ks ensures k == ks[0] || k in ks[1..] {
      if k != ks[0] {
        var j :| 0 <= j < |ks| && ks[j] == k;
        assert ks[1..][j - 1] == k;
      }
    }
  }

  lemma RestrictAll<K(!new), V>(m: map<K, V>, ks: seq<K>)
    requires forall k :: k in m ==> k in ks
    ensures Restrict(m, ks) == m
  {
  }

  // Encoding.

  /** partition : INT32, record_len : INT32 (back-filled), then the container's bytes. */
  function EncodePartition(e: PartitionEntry, codec: ContainerCodec): Result<Bytes, Error> {
    var payload :- codec.encode(e.1);
    if |payload| > MaxInt32 then Err(LengthFieldOverflow)
    else Ok(Int32Bytes(e.0) + Int32Bytes(|payload|) + payload)
  }

  function EncodePartitionList(es: seq<PartitionEntry>, codec: ContainerCodec): Result<Bytes, Error>
    decreases |es|
  {
    if es == [] then Ok([])
    else
      var head :- EncodePartition(es[0], codec);
      var rest :- EncodePartitionList(es[1..], codec);
      Ok(head + rest)
  }

  /** name : STRING, then the partition array. */
  function EncodeTopic(e: TopicEntry, codec: ContainerCodec): Result<Bytes, Error> {
    var name :- EncodeString(e.name);
    var count :- EncodeArrayLength(|e.partitions|);
    var body :- EncodePartitionList(e.partitions, codec);
    Ok(name + count + body)
  }

  function EncodeTopicList(es: seq<TopicEntry>, codec: ContainerCodec): Result<Bytes, Error>
    decreases |es|
  {
    if es == [] then Ok([])
    else
      var head :- EncodeTopic(es[0], codec);
      var rest :- EncodeTopicList(es[1..], codec);
      Ok(head + rest)
  }

  function EncodeHeader(v: RequestValue): Result<Bytes, Error> {
    var txn :- if v.version >= 3 then EncodeNullableString(v.transactionalId) else Ok([]);
    Ok(txn + Int16Bytes(v.requiredAcks) + Int32Bytes(v.timeout))
  }

  function EncodeRequest(v: RequestValue, order: Order, codec: ContainerCodec): Result<Bytes, Error>
    requires Within(order, TopicsOf(v.records))
  {
    var header :- EncodeHeader(v);
    var es := TopicEntries(TopicsOf(v.records), order);
    var count :- EncodeArrayLength(|es|);
    var body :- EncodeTopicList(es, codec);
    Ok(header + count + body)
  }

  /** Both encodings in sequence; the first error wins. */
  function Concat(a: Result<Bytes, Error>, b: Result<Bytes, Error>): Result<Bytes, Error> {
    var x :- a;
    var y :- b;
    Ok(x + y)
  }

  /** Encoding a list of partition entries is encoding its parts one after the other. */
  lemma {:induction false} EncodePartitionListAppend(xs: seq<PartitionEntry>, ys: seq<PartitionEntry>, codec: ContainerCodec)
    ensures EncodePartitionList(xs + ys, codec) == Concat(EncodePartitionList(xs, codec), EncodePartitionList(ys, codec))
    decreases |xs|
  {
    if xs == [] {
      assert xs + ys == ys;
      var r := EncodePartitionList(ys, codec);
      if r.Ok? {
        assert [] + r.value == r.value;
      }
    } else {
      assert (xs + ys)[0] == xs[0] && (xs + ys)[1..] == xs[1..] + ys;
      EncodePartitionListAppend(xs[1..], ys, codec);
      var h := EncodePartition(xs[0], codec);
      var t := EncodePartitionList(xs[1..], codec);
      var r := EncodePartitionList(ys, codec);
      if h.Ok? && t.Ok? && r.Ok? {
        assert h.value + (t.value + r.value) == (h.value + t.value) + r.value;
      }
    }
  }

  /** Encoding a list of topic entries is encoding its parts one after the other. */
  lemma {:induction false} EncodeTopicListAppend(xs: seq<TopicEntry>, ys: seq<TopicEntry>, codec: ContainerCodec)
    ensures EncodeTopicList(xs + ys, codec) == Concat(EncodeTopicList(xs, codec), EncodeTopicList(ys, codec))
    decreases |xs|
  {
    if xs == [] {
      assert xs + ys == ys;
      var r := EncodeTopicList(ys, codec);
      if r.Ok? {
        assert [] + r.value == r.value;
      }
    } else {
      assert (xs + ys)[0] == xs[0] && (xs + ys)[1..] == xs[1..] + ys;
      EncodeTopicListAppend(xs[1..], ys, codec);
      var h := EncodeTopic(xs[0], codec);
      var t := EncodeTopicList(xs[1..], codec);
      var r := EncodeTopicList(ys, codec);
      if h.Ok? && t.Ok? && r.Ok? {
        assert h.value + (t.value + r.value) == (h.value + t.value) + r.value;
      }
    }
  }

  /** A topic entry is its name, its partition count and its partitions, one after the other. */
  lemma EncodeTopicParts(e: TopicEntry, codec: ContainerCodec)
    ensures EncodeTopic(e, codec)
      == Concat(EncodeString(e.name), Concat(EncodeArrayLength(|e.partitions|), EncodePartitionList(e.partitions, codec)))
  {
    var a, b, c := EncodeString(e.name), EncodeArrayLength(|e.partitions|), EncodePartitionList(e.partitions, codec);
    if a.Ok? && b.Ok? && c.Ok? {
      assert a.value + b.value + c.value == a.value + (b.value + c.value);
    }
  }

  /** Proof helper for `Encode`: a request is its header, its topic count and its topics, one after the other. */
  lemma EncodeRequestParts(v: RequestValue, order: Order, codec: ContainerCodec)
    requires Within(order, TopicsOf(v.records))
    ensures var es := TopicEntries(TopicsOf(v.records), order);
      EncodeRequest(v, order, codec)
      == Concat(EncodeHeader(v), Concat(EncodeArrayLength(|es|), EncodeTopicList(es, codec)))
  {
    var es := TopicEntries(TopicsOf(v.records), order);
    var a, b, c := EncodeHeader(v), EncodeArrayLength(|es|), EncodeTopicList(es, codec);
    if a.Ok? && b.Ok? && c.Ok? {
      assert a.value + b.value + c.value == a.value + (b.value + c.value);
    }
  }

  /**
   * One more partition entry: on success the list so far grows by its bytes;
   * on failure the whole list fails with that error.
   */
  lemma PartitionListStep(es: seq<PartitionEntry>, j: nat, codec: ContainerCodec)
    requires j < |es| && EncodePartitionList(es[..j], codec).Ok?
    ensures match EncodePartition(es[j], codec)
      case Ok(e) => EncodePartitionList(es[..j + 1], codec) == Ok(EncodePartitionList(es[..j], codec).value + e)
      case Err(x) => EncodePartitionList(es, codec) == Err(x)
  {
    assert es[..j + 1] == es[..j] + [es[j]];
    EncodePartitionListAppend(es[..j], [es[j]], codec);
    var h := EncodePartition(es[j], codec);
    if h.Ok? {
      assert h.value + [] == h.value;
    } else {
      assert es == es[..j + 1] + es[j + 1..];
      EncodePartitionListAppend(es[..j + 1], es[j + 1..], codec);
    }
  }

  /** The same step for topic entries. */
  lemma TopicListStep(es: seq<TopicEntry>, i: nat, codec: ContainerCodec)
    requires i < |es| && EncodeTopicList(es[..i], codec).Ok?
    ensures match EncodeTopic(es[i], codec)
      case Ok(e) => EncodeTopicList(es[..i + 1], codec) == Ok(EncodeTopicList(es[..i], codec).value + e)
      case Err(x) => EncodeTopicList(es, codec) == Err(x)
  {
    assert es[..i + 1] == es[..i] + [es[i]];
    EncodeTopicListAppend(es[..i], [es[i]], codec);
    var h := EncodeTopic(es[i], codec);
    if h.Ok? {
      assert h.value + [] == h.value;
    } else {
      assert es == es[..i + 1] + es[i + 1..];
      EncodeTopicListAppend(es[..i + 1], es[i + 1..], codec);
    }
  }

  // Decoding.

  /** Partition entries folded into a map: a repeated partition keeps the last container. */
  function FoldPartitions(acc: Partitions, es: seq<PartitionEntry>): Partitions
    decreases |es|
  {
    if es == [] then acc else FoldPartitions(acc[es[0].0 := es[0].1], es[1..])
  }

  /** Topic entries folded into a map: a repeated topic replaces the earlier one's partitions. */
  function FoldTopics(acc: Topics, es: seq<TopicEntry>): Topics
    decreases |es|
  {
    if es == [] then acc
    else FoldTopics(acc[es[0].name := FoldPartitions(map[], es[0].partitions)], es[1..])
  }

  function DecodePartition(b: Bytes, codec: ContainerCodec): (r: Result<(PartitionEntry, Bytes), Error>)
  {
    var partition :- ReadInt32(b);
    var size :- ReadInt32(partition.1);
    var subset :- ReadSubset(size.1, size.0);
    var records :- codec.decode(subset.0);
    Ok(((partition.0, records), subset.1))
  }

  /** `n` partitions read into `acc`; a repeated partition replaces the one read before. */
  function DecodePartitions(b: Bytes, n: nat, codec: ContainerCodec, acc: Partitions): (r: Result<(Partitions, Bytes), Error>)
    decreases n, 0
  {
    if n == 0 then Ok((acc, b)) else PartitionsAfter(DecodePartition(b, codec), n - 1, codec, acc)
  }

  /** The `n` partitions still to read once the outcome `d` of reading one is known. */
  function PartitionsAfter(d: Result<(PartitionEntry, Bytes), Error>, n: nat, codec: ContainerCodec, acc: Partitions)
    : (r: Result<(Partitions, Bytes), Error>)
    decreases n, 1
  {
    match d
    case Err(x) => Err(x)
    case Ok(e) => DecodePartitions(e.1, n, codec, acc[e.0.0 := e.0.1])
  }

  function DecodeTopic(b: Bytes, codec: ContainerCodec): (r: Result<((Name, Partitions), Bytes), Error>)
  {
    var topic :- ReadString(b);
    var partitionCount :- ReadArrayLength(topic.1);
    var partitions :- DecodePartitions(partitionCount.1, partitionCount.0, codec, map[]);
    Ok(((topic.0, partitions.0), partitions.1))
  }

  /** `n` topics read into `acc`; a repeated topic replaces the one read before. */
  function DecodeTopics(b: Bytes, n: nat, codec: ContainerCodec, acc: Topics): (r: Result<(Topics, Bytes), Error>)
    decreases n, 0
  {
    if n == 0 then Ok((acc, b)) else TopicsAfter(DecodeTopic(b, codec), n - 1, codec, acc)
  }

  /** The `n` topics still to read once the outcome `d` of reading one is known. */
  function TopicsAfter(d: Result<((Name, Partitions), Bytes), Error>, n: nat, codec: ContainerCodec, acc: Topics)
    : (r: Result<(Topics, Bytes), Error>)
    decreases n, 1
  {
    match d
    case Err(x) => Err(x)
    case Ok(t) => DecodeTopics(t.1, n, codec, acc[t.0.0 := t.0.1])
  }

  /** What decode assigns; `transactionalId` is read only when the version is at least 3. */
  datatype Decoded = Decoded(transactionalId: Option<Name>, requiredAcks: Int16, timeout: Int32, records: Option<Topics>)

  function DecodeHeader(b: Bytes, version: Int16): (r: Result<(Decoded, Bytes), Error>)
    ensures r.Ok? ==> r.value.0.records.None?
  {
    var id :- if version >= 3 then ReadNullableString(b) else Ok((None, b));
    var requiredAcks :- ReadInt16(id.1);
    var timeout :- ReadInt32(requiredAcks.1);
    Ok((Decoded(id.0, requiredAcks.0, timeout.0, None), timeout.1))
  }

  /**
   * The header fields after reading as much of the header as `b` holds,
   * starting from `prior`. The id and the acks are assigned once their read
   * has succeeded; the timeout is assigned the INT32 read's value before its
   * error is tested, so a failed timeout read leaves `failedInt32` there.
   */
  function HeaderRead(b: Bytes, version: Int16, prior: Decoded, failedInt32: Int32): (r: Decoded)
    ensures r.records == prior.records
    ensures version < 3 ==> r.transactionalId == prior.transactionalId
    ensures DecodeHeader(b, version).Ok? ==>
      var h := DecodeHeader(b, version).value.0;
      && r.requiredAcks == h.requiredAcks && r.timeout == h.timeout
      && (version >= 3 ==> r.transactionalId == h.transactionalId)
    ensures version >= 3 && ReadNullableString(b).Err? ==> r == prior
    ensures var afterId := if version >= 3 then ReadNullableString(b) else Ok((prior.transactionalId, b));
      afterId.Ok? ==>
        var rest := afterId.value.1;
        && r.transactionalId == afterId.value.0
        && (|rest| < 2 ==> r.requiredAcks == prior.requiredAcks && r.timeout == prior.timeout)
        && (2 <= |rest| < 6 ==> r.requiredAcks == Int16Of(rest[..2]) && r.timeout == failedInt32)
  {
    var id := if version >= 3 then ReadNullableString(b) else Ok((prior.transactionalId, b));
    if id.Err? then prior
    else
      var requiredAcks := ReadInt16(id.value.1);
      if requiredAcks.Err? then prior.(transactionalId := id.value.0)
      else
        var timeout := ReadInt32(requiredAcks.value.1);
        var t := if timeout.Ok? then timeout.value.0 else failedInt32;
        prior.(transactionalId := id.value.0, requiredAcks := requiredAcks.value.0, timeout := t)
  }

  /**
   * Version 0, acks 1, and two of the timeout's four bytes: the header fails,
   * yet the acks have been assigned and the timeout holds the failed read's value.
   */
  lemma FailedTimeoutReadAssigns(failedInt32: Int32)
    ensures DecodeHeader([0, 1, 0, 0], 0) == Err(InsufficientData)
    ensures HeaderRead([0, 1, 0, 0], 0, Decoded(None, 5, 7, None), failedInt32) == Decoded(None, 1, failedInt32, None)
  {
    var b: Bytes := [0, 1, 0, 0];
    assert b[..2] == [0, 1] && |b[2..]| == 2;
    assert Int16Of([0, 1]) == 1;
  }

  /** The topic array after the header; a topic count of zero leaves the records absent. */
  function DecodeBody(b: Bytes, codec: ContainerCodec): (r: Result<(Option<Topics>, Bytes), Error>)
  {
    var topicCount :- ReadArrayLength(b);
    if topicCount.0 == 0 then Ok((None, topicCount.1))
    else
      var topics :- DecodeTopics(topicCount.1, topicCount.0, codec, map[]);
      Ok((Some(topics.0), topics.1))
  }

  function DecodeRequest(b: Bytes, version: Int16, codec: ContainerCodec): (r: Result<(Decoded, Bytes), Error>)
  {
    var header :- DecodeHeader(b, version);
    var body :- DecodeBody(header.1, codec);
    Ok((header.0.(records := body.0), body.1))
  }

  // Decoding reads back what encoding wrote, whatever follows it.

  lemma DecodePartitionInverse(e: PartitionEntry, codec: ContainerCodec, rest: Bytes)
    requires Invertible(codec)
    requires EncodePartition(e, codec).Ok?
    ensures DecodePartition(EncodePartition(e, codec).value + rest, codec) == Ok((e, rest))
  {
    var payload := codec.encode(e.1).value;
    var id := Int32Bytes(e.0);
    var len := Int32Bytes(|payload|);
    assert EncodePartition(e, codec).value + rest == id + (len + (payload + rest));
    ReadInt32Inverse(e.0, len + (payload + rest));
    ReadInt32Inverse(|payload|, payload + rest);
    ReadSubsetInverse(payload, rest);
  }

  lemma {:induction false} DecodePartitionsInverse(es: seq<PartitionEntry>, codec: ContainerCodec, acc: Partitions, rest: Bytes)
    requires Invertible(codec)
    requires EncodePartitionList(es, codec).Ok?
    ensures DecodePartitions(EncodePartitionList(es, codec).value + rest, |es|, codec, acc)
         == Ok((FoldPartitions(acc, es), rest))
    decreases |es|
  {
    if es == [] {
      assert EncodePartitionList(es, codec).value + rest == rest;
    } else {
      var head := EncodePartition(es[0], codec).value;
      var tail := EncodePartitionList(es[1..], codec).value;
      assert EncodePartitionList(es, codec).value + rest == head + (tail + rest);
      DecodePartitionInverse(es[0], codec, tail + rest);
      DecodePartitionsInverse(es[1..], codec, acc[es[0].0 := es[0].1], rest);
    }
  }

  lemma DecodeTopicInverse(e: TopicEntry, codec: ContainerCodec, rest: Bytes)
    requires Invertible(codec)
    requires EncodeTopic(e, codec).Ok?
    ensures DecodeTopic(EncodeTopic(e, codec).value + rest, codec)
         == Ok(((e.name, FoldPartitions(map[], e.partitions)), rest))
  {
    var count := Int32Bytes(|e.partitions|);
    var body := EncodePartitionList(e.partitions, codec).value;
    assert EncodeTopic(e, codec).value + rest == StringBytes(e.name) + (count + (body + rest));
    ReadStringInverse(e.name, count + (body + rest));
    ReadArrayLengthInverse(|e.partitions|, body + rest);
    DecodePartitionsInverse(e.partitions, codec, map[], rest);
  }

  lemma {:induction false} DecodeTopicsInverse(es: seq<TopicEntry>, codec: ContainerCodec, acc: Topics, rest: Bytes)
    requires Invertible(codec)
    requires EncodeTopicList(es, codec).Ok?
    ensures DecodeTopics(EncodeTopicList(es, codec).value + rest, |es|, codec, acc)
         == Ok((FoldTopics(acc, es), rest))
    decreases |es|
  {
    if es == [] {
      assert EncodeTopicList(es, codec).value + rest == rest;
    } else {
      var head := EncodeTopic(es[0], codec).value;
      var tail := EncodeTopicList(es[1..], codec).value;
      assert EncodeTopicList(es, codec).value + rest == head + (tail + rest);
      DecodeTopicInverse(es[0], codec, tail + rest);
      DecodeTopicsInverse(es[1..], codec, acc[es[0].name := FoldPartitions(map[], es[0].partitions)], rest);
    }
  }

  lemma DecodeHeaderInverse(v: RequestValue, rest: Bytes)
    requires EncodeHeader(v).Ok?
    ensures DecodeHeader(EncodeHeader(v).value + rest, v.version)
         == Ok((Decoded(if v.version >= 3 then v.transactionalId else None, v.requiredAcks, v.timeout, None), rest))
  {
    var txn := if v.version >= 3 then NullableStringBytes(v.transactionalId) else [];
    var acks := Int16Bytes(v.requiredAcks);
    var timeout := Int32Bytes(v.timeout);
    assert EncodeHeader(v).value + rest == txn + (acks + (timeout + rest));
    if v.version >= 3 {
      ReadNullableStringInverse(v.transactionalId, acks + (timeout + rest));
    } else {
      assert txn + (acks + (timeout + rest)) == acks + (timeout + rest);
    }
    ReadInt16Inverse(v.requiredAcks, timeout + rest);
    ReadInt32Inverse(v.timeout, rest);
  }

  // Folding the entries of a map walked in some order gives the map back.

  lemma {:induction false} FoldPartitionEntries(acc: Partitions, ps: Partitions, ids: seq<Int32>)
    requires forall id :: id in ids ==> id in ps
    ensures FoldPartitions(acc, PartitionEntries(ps, ids)) == acc + Restrict(ps, ids)
    decreases |ids|
  {
    if ids == [] {
      assert Restrict(ps, ids) == map[];
    } else {
      var es := PartitionEntries(ps, ids);
      assert es[1..] == PartitionEntries(ps, ids[1..]);
      FoldPartitionEntries(acc[ids[0] := ps[ids[0]]], ps, ids[1..]);
      RestrictStep(acc, ps, ids);
    }
  }

  lemma {:induction false} FoldTopicEntries(acc: Topics, topics: Topics, order: Order)
    requires Within(order, topics)
    requires forall t :: t in order.topics ==> Enumerates(order.partitions[t], topics[t])
    ensures FoldTopics(acc, TopicEntries(topics, order)) == acc + Restrict(topics, order.topics)
    decreases |order.topics|
  {
    var ts := order.topics;
    if ts == [] {
      assert Restrict(topics, ts) == map[];
    } else {
      var es := TopicEntries(topics, order);
      var order' := order.(topics := ts[1..]);
      assert es[1..] == TopicEntries(topics, order');
      var ps := topics[ts[0]];
      FoldPartitionEntries(map[], ps, order.partitions[ts[0]]);
      RestrictAll(ps, order.partitions[ts[0]]);
      assert map[] + ps == ps;
      assert es[0] == TopicEntry(ts[0], PartitionEntries(ps, order.partitions[ts[0]]));
      assert FoldTopics(acc, es) == FoldTopics(acc[ts[0] := ps], es[1..]);
      FoldTopicEntries(acc[ts[0] := ps], topics, order');
      RestrictStep(acc, topics, ts);
    }
  }

  /** The topic array decodes to the very map it was written from. */
  lemma DecodeTopicMapInverse(topics: Topics, order: Order, codec: ContainerCodec, rest: Bytes)
    requires OrderFor(order, topics) && Invertible(codec)
    requires EncodeTopicList(TopicEntries(topics, order), codec).Ok?
    ensures DecodeTopics(EncodeTopicList(TopicEntries(topics, order), codec).value + rest, |order.topics|, codec, map[])
         == Ok((topics, rest))
  {
    DecodeTopicsInverse(TopicEntries(topics, order), codec, map[], rest);
    FoldTopicEntries(map[], topics, order);
    RestrictAll(topics, order.topics);
    assert map[] + topics == topics;
  }

  /**
   * Decoding an encoded request with its own version restores the acks, the
   * timeout, the transactional id when the version carries one, and the
   * topic -> partition -> container map; an empty map comes back absent.
   * Decoding stops exactly where the request ends.
   */
  lemma RequestRoundTrip(v: RequestValue, order: Order, codec: ContainerCodec, rest: Bytes)
    requires OrderFor(order, TopicsOf(v.records)) && Invertible(codec)
    requires EncodeRequest(v, order, codec).Ok?
    ensures DecodeRequest(EncodeRequest(v, order, codec).value + rest, v.version, codec)
         == Ok((Decoded(if v.version >= 3 then v.transactionalId else None, v.requiredAcks, v.timeout,
                        if TopicsOf(v.records) == map[] then None else Some(TopicsOf(v.records))),
                rest))
  {
    var topics := TopicsOf(v.records);
    var es := TopicEntries(topics, order);
    var header := EncodeHeader(v).value;
    var count := Int32Bytes(|es|);
    var body := EncodeTopicList(es, codec).value;
    assert EncodeRequest(v, order, codec).value + rest == header + (count + (body + rest));
    DecodeHeaderInverse(v, count + (body + rest));
    ReadArrayLengthInverse(|es|, body + rest);
    EnumeratesCard(order.topics, topics);
    if topics == map[] {
      assert es == [] && body + rest == rest;
    } else {
      DecodeTopicMapInverse(topics, order, codec, rest);
    }
  }

  // Later entries under the same key win.

  lemma {:induction false} FoldPartitionsKeeps(acc: Partitions, es: seq<PartitionEntry>, id: Int32)
    requires id in acc
    requires forall j :: 0 <= j < |es| ==> es[j].0 != id
    ensures id in FoldPartitions(acc, es) && FoldPartitions(acc, es)[id] == acc[id]
    decreases |es|
  {
    if es != [] {
      FoldPartitionsKeeps(acc[es[0].0 := es[0].1], es[1..], id);
    }
  }

  /** The container decode keeps for a partition is the one of its last occurrence. */
  lemma {:induction false} LastPartitionEntryWins(acc: Partitions, es: seq<PartitionEntry>, i: nat)
    requires i < |es|
    requires forall j :: i < j < |es| ==> es[j].0 != es[i].0
    ensures es[i].0 in FoldPartitions(acc, es) && FoldPartitions(acc, es)[es[i].0] == es[i].1
    decreases |es|
  {
    if i == 0 {
      FoldPartitionsKeeps(acc[es[0].0 := es[0].1], es[1..], es[0].0);
    } else {
      LastPartitionEntryWins(acc[es[0].0 := es[0].1], es[1..], i - 1);
    }
  }

  lemma {:induction false} FoldTopicsKeeps(acc: Topics, es: seq<TopicEntry>, name: Name)
    requires name in acc
    requires forall j :: 0 <= j < |es| ==> es[j].name != name
    ensures name in FoldTopics(acc, es) && FoldTopics(acc, es)[name] == acc[name]
    decreases |es|
  {
    if es != [] {
      FoldTopicsKeeps(acc[es[0].name := FoldPartitions(map[], es[0].partitions)], es[1..], name);
    }
  }

  /**
   * The partitions decode keeps for a topic are those of its last occurrence
   * alone: a repeated topic name replaces, and does not merge with, the earlier one.
   */
  lemma {:induction false} LastTopicEntryWins(acc: Topics, es: seq<TopicEntry>, i: nat)
    requires i < |es|
    requires forall j :: i < j < |es| ==> es[j].name != es[i].name
    ensures es[i].name in FoldTopics(acc, es)
    ensures FoldTopics(acc, es)[es[i].name] == FoldPartitions(map[], es[i].partitions)
    decreases |es|
  {
    if i == 0 {
      FoldTopicsKeeps(acc[es[0].name := FoldPartitions(map[], es[0].partitions)], es[1..], es[0].name);
    } else {
      LastTopicEntryWins(acc[es[0].name := FoldPartitions(map[], es[0].partitions)], es[1..], i - 1);
    }
  }

  /**
   * A record_len larger than the bytes that follow it makes decode fail
   * instead of reading past the end.
   */
  lemma OversizedRecordLenRejected(b: Bytes, n: nat, codec: ContainerCodec, acc: Partitions)
    requires n > 0 && |b| >= 8
    requires Int32Of(b[4..8]) > |b| - 8
    ensures DecodePartitions(b, n, codec, acc) == Err(InsufficientData)
  {
    assert b[4..][..4] == b[4..8];
  }

  /**
   * The same at the level of the whole request: when the first partition of
   * the first topic declares a record_len beyond the bytes that remain, the
   * request fails to decode.
   */
  lemma OversizedRecordLenRejectsRequest(b: Bytes, version: Int16, codec: ContainerCodec,
                                         h: Decoded, afterHeader: Bytes, topicCount: nat, afterCount: Bytes,
                                         topic: Name, afterName: Bytes, partitionCount: nat, partitions: Bytes)
    requires DecodeHeader(b, version) == Ok((h, afterHeader))
    requires ReadArrayLength(afterHeader) == Ok((topicCount, afterCount)) && topicCount > 0
    requires ReadString(afterCount) == Ok((topic, afterName))
    requires ReadArrayLength(afterName) == Ok((partitionCount, partitions)) && partitionCount > 0
    requires |partitions| >= 8 && Int32Of(partitions[4..8]) > |partitions| - 8
    ensures DecodeRequest(b, version, codec) == Err(InsufficientData)
  {
    OversizedRecordLenRejected(partitions, partitionCount, codec, map[]);
    var topicRead := DecodeTopic(afterCount, codec);
    assert topicRead == Err(InsufficientData);
    assert DecodeTopics(afterCount, topicCount, codec, map[]) == TopicsAfter(topicRead, topicCount - 1, codec, map[]);
    assert DecodeBody(afterHeader, codec) == Err(InsufficientData);
  }
}
