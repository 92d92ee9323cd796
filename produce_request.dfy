/**
 * The produce request object: its header fields and the topic -> partition
 * -> container map, with the operations that fill it (AddMessage, AddSet,
 * AddBatch), write it to a packet encoder, read it from a packet decoder,
 * and rewrite the topic of the first entry a topic rule matches.
 *
 * Each container is an object the map holds by reference. `View()` is the
 * map with every container replaced by its content; the wire layout and the
 * rewrite are stated on that view, in ProduceWire and Rewrite.
 */
module Produce {
  import opened Wrappers
  import opened Packet
  import opened Containers
  import opened ProduceWire
  import opened Rewrite

  // How many replica acknowledgements the broker waits for before it answers.

  const NoResponse: Int16 := 0    // no answer at all
  const WaitForLocal: Int16 := 1  // the leader's own commit
  const WaitForAll: Int16 := -1   // every in-sync replica

  /** The broker releases a request version needs. */
  datatype KafkaVersion = MinVersion | V0_9_0_0 | V0_10_0_0 | V0_11_0_0 | V2_1_0_0

  type RecordsMap = map<Name, map<Int32, Records>>

  /** The message sets a map holds. */
  ghost function SetsOf(recs: RecordsMap): set<MessageSet> {
    set t, p | t in recs && p in recs[t] && recs[t][p].Legacy? :: recs[t][p].msgSet
  }

  /** The record batches a map holds. */
  ghost function BatchesOf(recs: RecordsMap): set<RecordBatch> {
    set t, p | t in recs && p in recs[t] && recs[t][p].Default? :: recs[t][p].batch
  }

  /** The map with each container replaced by what it holds. */
  function ViewOf(recs: RecordsMap): (v: Topics)
    reads SetsOf(recs), BatchesOf(recs)
    ensures v.Keys == recs.Keys
    ensures forall t :: t in recs ==> v[t].Keys == recs[t].Keys
    ensures forall t, p :: Lookup(v, t, p) == if Lookup(recs, t, p).Some? then Some(ContentOf(recs[t][p])) else None
  {
    map t | t in recs :: map p | p in recs[t] :: ContentOf(recs[t][p])
  }

  /** An order for the containers is an order for their contents. */
  lemma OrderForView(order: Order, recs: RecordsMap)
    requires OrderFor(order, recs)
    ensures OrderFor(order, ViewOf(recs))
  {
  }

  /** No container is held by two partitions. */
  predicate UnsharedIn(recs: RecordsMap) {
    forall t, p, u, q :: t in recs && p in recs[t] && u in recs && q in recs[u] && (t != u || p != q) ==>
      recs[t][p].Obj() != recs[u][q].Obj()
  }

  /** Two topic maps with the same topics and the same containers everywhere are equal. */
  lemma TopicsExt<V>(a: map<Name, map<Int32, V>>, b: map<Name, map<Int32, V>>)
    requires a.Keys == b.Keys
    requires forall t, p :: Lookup(a, t, p) == Lookup(b, t, p)
    ensures a == b
  {
    forall t | t in a ensures a[t] == b[t] {
      forall p ensures p in a[t] <==> p in b[t] {
        assert Lookup(a, t, p) == Lookup(b, t, p);
      }
      forall p | p in a[t] ensures a[t][p] == b[t][p] {
        assert Lookup(a, t, p) == Lookup(b, t, p);
      }
    }
  }

  /** The map with an empty partition map for `topic` unless it already has one. */
  function WithTopic<V>(m: Option<map<Name, map<Int32, V>>>, topic: Name): (r: map<Name, map<Int32, V>>)
    ensures r.Keys == TopicsOf(m).Keys + {topic}
    ensures forall t, p :: Lookup(r, t, p) == Lookup(TopicsOf(m), t, p)
  {
    var recs := TopicsOf(m);
    if topic in recs then recs else recs[topic := map[]]
  }

  /** The messages a legacy container holds; none for no container or a batch. */
  function LegacyMessages(c: Option<Content>): seq<MessageBlock> {
    if c.Some? && c.value.LegacyContent? then c.value.messages else []
  }

  /**
   * The contents after adding `msg` to topic t, partition p: appended to the
   * message set there, or alone in a new set when there is none or the
   * partition holds a batch, which is dropped.
   */
  function AddedMessage(topics: Topics, t: Name, p: Int32, msg: Message): (r: Topics)
    ensures Lookup(r, t, p) == Some(LegacyContent(LegacyMessages(Lookup(topics, t, p)) + [MessageBlock(0, msg)]))
    ensures forall u, q :: u != t || q != p ==> Lookup(r, u, q) == Lookup(topics, u, q)
    ensures r.Keys == topics.Keys + {t}
  {
    Place(topics, t, p, LegacyContent(LegacyMessages(Lookup(topics, t, p)) + [MessageBlock(0, msg)]))
  }

  /** Reserving the topic first does not change where a container is placed. */
  lemma PlaceWithTopic<V>(m: Option<map<Name, map<Int32, V>>>, t: Name, p: Int32, v: V)
    ensures Place(WithTopic(m, t), t, p, v) == Place(TopicsOf(m), t, p, v)
  {
    TopicsExt(Place(WithTopic(m, t), t, p, v), Place(TopicsOf(m), t, p, v));
  }

  /** Reserving a topic neither creates nor removes a container. */
  lemma UnsharedWithTopic(m: Option<RecordsMap>, t: Name)
    ensures UnsharedIn(WithTopic(m, t)) <==> UnsharedIn(TopicsOf(m))
  {
    assert forall u, q :: Lookup(WithTopic(m, t), u, q) == Lookup(TopicsOf(m), u, q);
  }

  /** Adding a message after reserving its topic is adding it to the map as it was. */
  lemma AddedAfterReserve(m: Option<RecordsMap>, t: Name, p: Int32, msg: Message)
    ensures AddedMessage(ViewOf(WithTopic(m, t)), t, p, msg) == AddedMessage(ViewOf(TopicsOf(m)), t, p, msg)
  {
    TopicsExt(AddedMessage(ViewOf(WithTopic(m, t)), t, p, msg), AddedMessage(ViewOf(TopicsOf(m)), t, p, msg));
  }

  /** The view of a map with one container placed is the view with that container's content placed. */
  lemma ViewOfPlace(recs: RecordsMap, t: Name, p: Int32, r: Records)
    ensures ViewOf(Place(recs, t, p, r)) == Place(ViewOf(recs), t, p, ContentOf(r))
  {
    TopicsExt(ViewOf(Place(recs, t, p, r)), Place(ViewOf(recs), t, p, ContentOf(r)));
  }

  /** Placing a container no partition holds keeps the containers unshared. */
  lemma UnsharedPlace(recs: RecordsMap, t: Name, p: Int32, r: Records)
    requires UnsharedIn(recs)
    requires forall u, q :: u in recs && q in recs[u] ==> recs[u][q].Obj() != r.Obj()
    ensures UnsharedIn(Place(recs, t, p, r))
  {
    var m: RecordsMap := Place(recs, t, p, r);
    forall u, q, u', q' | u in m && q in m[u] && u' in m && q' in m[u'] && (u != u' || q != q')
      ensures m[u][q].Obj() != m[u'][q'].Obj()
    {
      assert Lookup(m, u, q).Some? && Lookup(m, u', q').Some?;
      if u == t && q == p {
        assert m[u'][q'] == recs[u'][q'];
      } else if u' == t && q' == p {
        assert m[u][q] == recs[u][q];
      } else {
        assert m[u][q] == recs[u][q] && m[u'][q'] == recs[u'][q'];
      }
    }
  }

  /** No partition other than t/p holds `o`. */
  predicate OnlyAt(recs: RecordsMap, o: object, t: Name, p: Int32) {
    forall u, q :: u in recs && q in recs[u] && recs[u][q].Obj() == o ==> u == t && q == p
  }

  /** In an unshared map a container is held at one partition only. */
  lemma UnsharedOnlyAt(recs: RecordsMap, t: Name, p: Int32)
    requires Lookup(recs, t, p).Some? && UnsharedIn(recs)
    ensures OnlyAt(recs, recs[t][p].Obj(), t, p)
  {
  }

  /** Dropping partitions keeps the containers unshared. */
  lemma UnsharedSub(a: RecordsMap, b: RecordsMap)
    requires UnsharedIn(b)
    requires forall u, q :: Lookup(a, u, q).Some? ==> Lookup(a, u, q) == Lookup(b, u, q)
    ensures UnsharedIn(a)
  {
    forall u, q, u', q' | u in a && q in a[u] && u' in a && q' in a[u'] && (u != u' || q != q')
      ensures a[u][q].Obj() != a[u'][q'].Obj()
    {
      assert Lookup(a, u, q).Some? && Lookup(a, u', q').Some?;
    }
  }

  /** The view depends on nothing but the containers' contents. */
  twostate lemma ViewUnchanged(recs: RecordsMap)
    requires unchanged(SetsOf(recs)) && unchanged(BatchesOf(recs))
    ensures ViewOf(recs) == old(ViewOf(recs))
  {
  }

  /** The same, for a step that leaves every container of `recs` as it was. */
  twostate lemma ViewKept(recs: RecordsMap)
    requires forall u, q :: Lookup(recs, u, q).Some? ==> unchanged(recs[u][q].Obj())
    ensures ViewOf(recs) == old(ViewOf(recs))
  {
    forall u, q ensures Lookup(ViewOf(recs), u, q) == Lookup(old(ViewOf(recs)), u, q) {
    }
    TopicsExt(ViewOf(recs), old(ViewOf(recs)));
  }

  /** `v` has the partitions of `recs`, each holding content of its container's format. */
  ghost predicate Shaped(v: Topics, recs: RecordsMap) {
    && v.Keys == recs.Keys
    && (forall u :: u in recs ==> v[u].Keys == recs[u].Keys)
    && forall u, q :: Lookup(recs, u, q).Some? ==> (v[u][q].LegacyContent? <==> recs[u][q].Legacy?)
  }

  lemma ViewShaped(recs: RecordsMap)
    ensures Shaped(ViewOf(recs), recs)
  {
    var v: Topics := ViewOf(recs);
    forall u: Name, q: Int32 | Lookup(recs, u, q).Some? ensures v[u][q].LegacyContent? <==> recs[u][q].Legacy? {
      assert Lookup(v, u, q) == Some(ContentOf(recs[u][q]));
    }
  }

  /** Taking an entry out of a legacy container keeps the shape, pruning as the map is pruned. */
  lemma TakeOutShaped(v: Topics, recs: RecordsMap, m: Match)
    requires Shaped(v, recs) && Lookup(recs, m.topic, m.partition).Some?
    requires recs[m.topic][m.partition].Legacy? && m.index < Size(v[m.topic][m.partition])
    ensures Shaped(TakeOut(v, m), if Size(v[m.topic][m.partition]) == 1 then Prune(recs, m.topic, m.partition) else recs)
  {
    var r := TakeOut(v, m);
    var now: RecordsMap := if Size(v[m.topic][m.partition]) == 1 then Prune(recs, m.topic, m.partition) else recs;
    forall u: Name, q: Int32 ensures Lookup(r, u, q).Some? <==> Lookup(now, u, q).Some? {
      if u != m.topic || q != m.partition {
        assert Lookup(v, u, q).Some? <==> Lookup(recs, u, q).Some?;
      }
    }
    forall u: Name | u in now ensures r[u].Keys == now[u].Keys {
      forall q: Int32 ensures q in r[u] <==> q in now[u] {
        assert Lookup(r, u, q).Some? <==> Lookup(now, u, q).Some?;
      }
    }
    forall u: Name, q: Int32 | Lookup(now, u, q).Some? ensures r[u][q].LegacyContent? <==> now[u][q].Legacy? {
      assert Lookup(r, u, q).Some?;
    }
  }

  /**
   * `v` has the shape of `recs`, and shows what the current containers hold
   * everywhere except where `o` is held.
   */
  ghost predicate ShowsOutside(v: Topics, recs: RecordsMap, o: object)
    reads SetsOf(recs), BatchesOf(recs)
  {
    && v.Keys == recs.Keys
    && (forall u :: u in recs ==> v[u].Keys == recs[u].Keys)
    && forall u, q :: Lookup(recs, u, q).Some? && recs[u][q].Obj() != o ==> Lookup(v, u, q) == Lookup(ViewOf(recs), u, q)
  }

  /** When only the container at t/p may differ from what `v0` shows, the view is `v0` with its content there. */
  lemma ReplacedView(recs: RecordsMap, v0: Topics, t: Name, p: Int32)
    requires Lookup(recs, t, p).Some? && UnsharedIn(recs) && ShowsOutside(v0, recs, recs[t][p].Obj())
    ensures ViewOf(recs) == Place(v0, t, p, ContentOf(recs[t][p]))
  {
    var nv := ViewOf(recs);
    var expected := Place(v0, t, p, ContentOf(recs[t][p]));
    forall u, q | u != t || q != p ensures Lookup(nv, u, q) == Lookup(expected, u, q) {
      if Lookup(recs, u, q).Some? {
        assert recs[u][q].Obj() != recs[t][p].Obj();
      }
    }
    TopicsExt(nv, expected);
  }

  /**
   * Dropping partitions from an unshared map keeps it unshared, and the
   * container held at t/p, if still there, held there alone.
   */
  lemma SubShares(now: RecordsMap, recs: RecordsMap, t: Name, p: Int32)
    requires Lookup(recs, t, p).Some? && UnsharedIn(recs)
    requires forall u, q :: Lookup(now, u, q).Some? ==> Lookup(now, u, q) == Lookup(recs, u, q)
    ensures UnsharedIn(now) && OnlyAt(now, recs[t][p].Obj(), t, p)
  {
    UnsharedSub(now, recs);
    UnsharedOnlyAt(recs, t, p);
    forall u, q | u in now && q in now[u] && now[u][q].Obj() == recs[t][p].Obj() ensures u == t && q == p {
      assert Lookup(now, u, q) == Lookup(recs, u, q);
    }
  }

  // The topic rewrite on objects.

  /** How the rewrite ends. */
  datatype Outcome =
    | Returned        // the rewrite returned (always with a nil error)
    | NilDereference  // the rewrite dereferenced an absent message set

  /**
   * The set at t/p lost its entry at `m.index`; if it is now empty the
   * partition is dropped. Everywhere else the view is what it was.
   */
  lemma TakenOutView(recs: RecordsMap, v0: Topics, before: seq<MessageBlock>, m: Match)
    requires Lookup(recs, m.topic, m.partition).Some? && recs[m.topic][m.partition].Legacy?
    requires Lookup(v0, m.topic, m.partition) == Some(LegacyContent(before)) && m.index < |before|
    requires recs[m.topic][m.partition].msgSet.messages == before[..m.index] + before[m.index + 1..]
    requires var ms := recs[m.topic][m.partition].msgSet;
      OnlyAt(recs, ms, m.topic, m.partition) && ShowsOutside(v0, recs, ms)
    ensures var ms := recs[m.topic][m.partition].msgSet;
      ViewOf(if ms.messages == [] then Prune(recs, m.topic, m.partition) else recs) == TakeOut(v0, m)
  {
    var ms := recs[m.topic][m.partition].msgSet;
    var now: RecordsMap := if ms.messages == [] then Prune(recs, m.topic, m.partition) else recs;
    var nv := ViewOf(now);
    var expected := TakeOut(v0, m);
    var here := if |ms.messages| == 0 then None else Some(LegacyContent(ms.messages));
    assert Lookup(expected, m.topic, m.partition) == here;
    assert Lookup(now, m.topic, m.partition) == if |ms.messages| == 0 then None else Some(Legacy(ms));
    assert Lookup(nv, m.topic, m.partition) == here;
    forall u, q | u != m.topic || q != m.partition ensures Lookup(nv, u, q) == Lookup(expected, u, q) {
      assert Lookup(now, u, q) == Lookup(recs, u, q);
    }
    TopicsExt(nv, expected);
  }

  /**
   * The set `ms` goes in at the destination, which had no container; the
   * source partition, if still there, holds it too.
   */
  lemma InstalledView(before: RecordsMap, v0: Topics, m: Match, ms: MessageSet)
    requires Lookup(before, m.dest, m.partition).None?
    requires Lookup(before, m.topic, m.partition) == None || Lookup(before, m.topic, m.partition) == Some(Legacy(ms))
    requires OnlyAt(before, ms, m.topic, m.partition) && ShowsOutside(v0, before, ms)
    ensures var c := LegacyContent(ms.messages);
      var shared := if Lookup(before, m.topic, m.partition).Some? then Place(v0, m.topic, m.partition, c) else v0;
      ViewOf(Place(before, m.dest, m.partition, Legacy(ms))) == Place(shared, m.dest, m.partition, c)
  {
    var c := LegacyContent(ms.messages);
    var shared := if Lookup(before, m.topic, m.partition).Some? then Place(v0, m.topic, m.partition, c) else v0;
    var vb := ViewOf(before);
    forall u, q ensures Lookup(vb, u, q) == Lookup(shared, u, q) {
      if u == m.topic && q == m.partition {
      } else if Lookup(before, u, q).Some? {
        assert before[u][q].Obj() != ms;
      }
    }
    TopicsExt(vb, shared);
    ViewOfPlace(before, m.dest, m.partition, Legacy(ms));
  }

  /**
   * Walks the entries of one container in order and stops at the first one
   * the topic's rule matches, giving its index and the topic it moves to.
   */
  method ScanContainer(rule: TopicRule, topic: Name, cell: Records) returns (found: Option<(nat, Name)>)
    ensures found == FindInContent(rule, topic, ContentOf(cell), 0)
  {
    match cell
    case Legacy(ms) =>
      var k := 0;
      while k < |ms.messages|
        invariant k <= |ms.messages|
        invariant FindInContent(rule, topic, ContentOf(cell), 0) == FindInContent(rule, topic, ContentOf(cell), k)
      {
        var res := rule.checkIsReplaceTopic(topic, ms.messages[k].msg.key, ms.messages[k].msg.value);
        if res.0 {
          return Some((k, rule.brokerTopic(topic, res.1)));
        }
        k := k + 1;
      }
      return None;
    case Default(b) =>
      var k := 0;
      while k < |b.records|
        invariant k <= |b.records|
        invariant FindInContent(rule, topic, ContentOf(cell), 0) == FindInContent(rule, topic, ContentOf(cell), k)
      {
        var res := rule.checkIsReplaceTopic(topic, b.records[k].key, b.records[k].value);
        if res.0 {
          return Some((k, rule.brokerTopic(topic, res.1)));
        }
        k := k + 1;
      }
      return None;
  }

  /**
   * The first match among the containers of one topic, walking its
   * partitions in `ids` order; `v` is what those containers hold.
   */
  method ScanPartitions(rule: TopicRule, topic: Name, ps: map<Int32, Records>, ids: seq<Int32>, ghost v: Partitions)
    returns (m: Option<Match>)
    requires forall id :: id in ids ==> id in ps && id in v && v[id] == ContentOf(ps[id])
    ensures m == FindInPartitions(rule, topic, v, ids)
  {
    assert forall id :: id in ids ==> allocated(ps[id].Obj());
    var j := 0;
    while j < |ids|
      invariant j <= |ids|
      invariant forall id :: id in ids ==> v[id] == ContentOf(ps[id])
      invariant FindInPartitions(rule, topic, v, ids) == FindInPartitions(rule, topic, v, ids[j..])
    {
      assert ids[j..][1..] == ids[j + 1..];
      var found := ScanContainer(rule, topic, ps[ids[j]]);
      if found.Some? {
        return Some(Match(topic, ids[j], found.value.0, found.value.1));
      }
      j := j + 1;
    }
    return None;
  }

  /** The first match within the topic at `i` of the order, if the rule covers that topic. */
  method ScanTopic(rule: TopicRule, recs: RecordsMap, order: Order, i: nat, ghost v: Topics) returns (m: Option<Match>)
    requires i < |order.topics| && Within(order, recs) && Within(order, v)
    requires var t := order.topics[i];
      forall p :: p in order.partitions[t] ==> v[t][p] == ContentOf(recs[t][p])
    ensures var t := order.topics[i];
      m == if rule.checkClientTopicIsRule(t) then FindInPartitions(rule, t, v[t], order.partitions[t]) else None
  {
    var t := order.topics[i];
    if !rule.checkClientTopicIsRule(t) {
      return None;
    }
    m := ScanPartitions(rule, t, recs[t], order.partitions[t], v[t]);
  }

  /**
   * The first entry the rule matches, walking the topics, each ruled topic's
   * partitions and each container's entries in `order`; `v` is what the
   * containers hold.
   */
  method ScanTopics(rule: TopicRule, recs: RecordsMap, order: Order, ghost v: Topics) returns (m: Option<Match>)
    requires Within(order, recs) && Within(order, v)
    requires forall t, p :: t in order.topics && p in order.partitions[t] ==> v[t][p] == ContentOf(recs[t][p])
    ensures m == FindMatch(rule, v, order)
  {
    assert forall t, p :: t in order.topics && p in order.partitions[t] ==> allocated(recs[t][p].Obj());
    var i := 0;
    while i < |order.topics|
      invariant i <= |order.topics|
      invariant forall t, p :: t in order.topics && p in order.partitions[t] ==> v[t][p] == ContentOf(recs[t][p])
      invariant FindMatch(rule, v, order) == FindMatch(rule, v, order.(topics := order.topics[i..]))
    {
      var found := ScanTopic(rule, recs, order, i, v);
      FindMatchStep(rule, v, order, i, found);
      if found.Some? {
        return found;
      }
      i := i + 1;
    }
    assert order.topics[i..] == [];
    return None;
  }

  /**
   * One step of the scan over the topics: `found`, what the topic at `i`
   * gives, is the answer if there is one, else the scan goes on after it.
   */
  lemma FindMatchStep(rule: TopicRule, topics: Topics, order: Order, i: nat, found: Option<Match>)
    requires Within(order, topics) && i < |order.topics|
    requires var t := order.topics[i];
      found == if rule.checkClientTopicIsRule(t) then FindInPartitions(rule, t, topics[t], order.partitions[t]) else None
    ensures FindMatch(rule, topics, order.(topics := order.topics[i..]))
         == if found.Some? then found else FindMatch(rule, topics, order.(topics := order.topics[i + 1..]))
  {
    assert order.topics[i..][0] == order.topics[i];
    assert order.topics[i..][1..] == order.topics[i + 1..];
  }

  /**
   * `err` reports the outcome of encoding `res` into a buffer that went from
   * `before` to `after`. After a failure the buffer holds whatever was
   * written before it, which the caller discards.
   */
  predicate Emitted(res: Result<Bytes, Error>, err: Option<Error>, before: Bytes, after: Bytes) {
    match res
    case Ok(e) => err.None? && after == before + e
    case Err(x) => err == Some(x)
  }

  /**
   * The partition id, a reserved length field, the container's bytes, and
   * the field back-filled with their number.
   */
  method WritePartition(pe: PacketEncoder, id: Int32, c: Content, codec: ContainerCodec) returns (err: Option<Error>)
    requires pe.Valid()
    modifies pe
    ensures pe.Valid() && (err.None? ==> pe.stack == old(pe.stack))
    ensures Emitted(EncodePartition((id, c), codec), err, old(pe.buf), pe.buf)
  {
    pe.PutInt32(id);
    ghost var prefix := pe.buf;
    pe.Push();
    var payload := codec.encode(c);
    if payload.Err? {
      return Some(payload.error);
    }
    pe.PutRawBytes(payload.value);
    if |payload.value| <= MaxInt32 {
      BackfillFrames(prefix, payload.value);
    }
    err := pe.Pop();
    assert err.None? ==> pe.buf == old(pe.buf) + (Int32Bytes(id) + Int32Bytes(|payload.value|) + payload.value);
  }

  /** A successful write of `a` followed by the outcome of `b` is the outcome of both. */
  lemma EmittedThen(a: Result<Bytes, Error>, b: Result<Bytes, Error>, err: Option<Error>, b0: Bytes, b1: Bytes, b2: Bytes)
    requires a.Ok? && b1 == b0 + a.value && Emitted(b, err, b1, b2)
    ensures Emitted(Concat(a, b), err, b0, b2)
  {
    if b.Ok? {
      assert b2 == b0 + (a.value + b.value);
    }
  }

  /** One more partition written after the list so far; a failure fails the whole list. */
  lemma EmittedPartitionStep(es: seq<PartitionEntry>, j: nat, codec: ContainerCodec, err: Option<Error>, b0: Bytes, b1: Bytes, b2: Bytes)
    requires j < |es| && EncodePartitionList(es[..j], codec).Ok?
    requires b1 == b0 + EncodePartitionList(es[..j], codec).value
    requires Emitted(EncodePartition(es[j], codec), err, b1, b2)
    ensures err.None? ==> EncodePartitionList(es[..j + 1], codec).Ok? && b2 == b0 + EncodePartitionList(es[..j + 1], codec).value
    ensures err.Some? ==> Emitted(EncodePartitionList(es, codec), err, b0, b2)
  {
    PartitionListStep(es, j, codec);
  }

  /** One more topic written after the list so far; a failure fails the whole list. */
  lemma EmittedTopicStep(es: seq<TopicEntry>, i: nat, codec: ContainerCodec, err: Option<Error>, b0: Bytes, b1: Bytes, b2: Bytes)
    requires i < |es| && EncodeTopicList(es[..i], codec).Ok?
    requires b1 == b0 + EncodeTopicList(es[..i], codec).value
    requires Emitted(EncodeTopic(es[i], codec), err, b1, b2)
    ensures err.None? ==> EncodeTopicList(es[..i + 1], codec).Ok? && b2 == b0 + EncodeTopicList(es[..i + 1], codec).value
    ensures err.Some? ==> Emitted(EncodeTopicList(es, codec), err, b0, b2)
  {
    TopicListStep(es, i, codec);
  }

  /** Each partition in `ids` order. */
  method WritePartitions(pe: PacketEncoder, ps: Partitions, ids: seq<Int32>, codec: ContainerCodec)
    returns (err: Option<Error>)
    requires pe.Valid() && forall id :: id in ids ==> id in ps
    modifies pe
    ensures pe.Valid() && (err.None? ==> pe.stack == old(pe.stack))
    ensures Emitted(EncodePartitionList(PartitionEntries(ps, ids), codec), err, old(pe.buf), pe.buf)
  {
    ghost var es := PartitionEntries(ps, ids);
    assert es[..0] == [];
    err := None;
    var j := 0;
    while j < |ids|
      invariant j <= |ids| && pe.Valid() && pe.stack == old(pe.stack) && err.None?
      invariant EncodePartitionList(es[..j], codec).Ok?
      invariant pe.buf == old(pe.buf) + EncodePartitionList(es[..j], codec).value
    {
      var id := ids[j];
      ghost var mid := pe.buf;
      err := WritePartition(pe, id, ps[id], codec);
      EmittedPartitionStep(es, j, codec, err, old(pe.buf), mid, pe.buf);
      if err.Some? {
        return;
      }
      j := j + 1;
    }
    assert es[..j] == es;
  }

  /** The topic name, the partition count, then each partition in `ids` order. */
  method WriteTopic(pe: PacketEncoder, topic: Name, ps: Partitions, ids: seq<Int32>, codec: ContainerCodec)
    returns (err: Option<Error>)
    requires pe.Valid() && Enumerates(ids, ps)
    modifies pe
    ensures pe.Valid() && (err.None? ==> pe.stack == old(pe.stack))
    ensures Emitted(EncodeTopic(TopicEntry(topic, PartitionEntries(ps, ids)), codec), err, old(pe.buf), pe.buf)
  {
    ghost var es := PartitionEntries(ps, ids);
    EncodeTopicParts(TopicEntry(topic, es), codec);
    err := pe.PutString(topic);
    if err.Some? {
      return;
    }
    ghost var b1 := pe.buf;
    EnumeratesCard(ids, ps);
    err := pe.PutArrayLength(|ps|);
    if err.Some? {
      return;
    }
    ghost var b2 := pe.buf;
    err := WritePartitions(pe, ps, ids, codec);
    EmittedThen(EncodeArrayLength(|es|), EncodePartitionList(es, codec), err, b1, b2, pe.buf);
    EmittedThen(EncodeString(topic), Concat(EncodeArrayLength(|es|), EncodePartitionList(es, codec)), err, old(pe.buf), b1, pe.buf);
  }

  /** The transactional id from version 3 on, then the acks and the timeout. */
  method WriteHeader(pe: PacketEncoder, value: RequestValue) returns (err: Option<Error>)
    requires pe.Valid()
    modifies pe
    ensures pe.Valid() && pe.stack == old(pe.stack)
    ensures Emitted(EncodeHeader(value), err, old(pe.buf), pe.buf)
  {
    err := None;
    if value.version >= 3 {
      err := pe.PutNullableString(value.transactionalId);
      if err.Some? {
        return;
      }
    }
    pe.PutInt16(value.requiredAcks);
    pe.PutInt32(value.timeout);
  }

  /** Each topic in `order`, with its partitions in the order's sequence for it. */
  method WriteTopics(pe: PacketEncoder, v: Topics, order: Order, codec: ContainerCodec)
    returns (err: Option<Error>)
    requires pe.Valid() && Within(order, v)
    requires forall t :: t in order.topics ==> Enumerates(order.partitions[t], v[t])
    modifies pe
    ensures pe.Valid() && (err.None? ==> pe.stack == old(pe.stack))
    ensures Emitted(EncodeTopicList(TopicEntries(v, order), codec), err, old(pe.buf), pe.buf)
  {
    ghost var es := TopicEntries(v, order);
    assert es[..0] == [];
    err := None;
    var i := 0;
    while i < |order.topics|
      invariant i <= |order.topics| && pe.Valid() && pe.stack == old(pe.stack) && err.None?
      invariant EncodeTopicList(es[..i], codec).Ok?
      invariant pe.buf == old(pe.buf) + EncodeTopicList(es[..i], codec).value
    {
      var t := order.topics[i];
      ghost var mid := pe.buf;
      err := WriteTopic(pe, t, v[t], order.partitions[t], codec);
      EmittedTopicStep(es, i, codec, err, old(pe.buf), mid, pe.buf);
      if err.Some? {
        return;
      }
      i := i + 1;
    }
    assert es[..i] == es;
  }

  // Reading. Each reader is stated against the pure decoder over the bytes
  // the packet decoder has not read yet, and builds a fresh container for
  // every partition it reads.

  /** The message sets held by the partitions of `ps`. */
  ghost function PartitionSets(ps: map<Int32, Records>): set<MessageSet> {
    set id | id in ps && ps[id].Legacy? :: ps[id].msgSet
  }

  /** The record batches held by the partitions of `ps`. */
  ghost function PartitionBatches(ps: map<Int32, Records>): set<RecordBatch> {
    set id | id in ps && ps[id].Default? :: ps[id].batch
  }

  /** The containers of `ps` hold the contents `cps`, partition by partition. */
  ghost predicate Holding(ps: map<Int32, Records>, cps: Partitions)
    reads PartitionSets(ps), PartitionBatches(ps)
  {
    (forall id :: id in ps <==> id in cps) && forall id :: id in ps ==> ContentOf(ps[id]) == cps[id]
  }

  /** No container is held by two partitions of `ps`. */
  predicate DistinctContainers(ps: map<Int32, Records>) {
    forall a, b :: a in ps && b in ps && a != b ==> ps[a].Obj() != ps[b].Obj()
  }

  lemma HoldingAdd(ps: map<Int32, Records>, cps: Partitions, id: Int32, r: Records)
    requires Holding(ps, cps)
    requires forall q :: q in ps ==> ps[q].Obj() != r.Obj()
    ensures Holding(ps[id := r], cps[id := ContentOf(r)])
  {
  }

  lemma DistinctAdd(ps: map<Int32, Records>, id: Int32, r: Records)
    requires DistinctContainers(ps)
    requires forall q :: q in ps ==> ps[q].Obj() != r.Obj()
    ensures DistinctContainers(ps[id := r])
  {
  }

  /** `whole` is what decoding the `k` partitions still to read from `rest` into `acc` gives. */
  ghost predicate PartitionsLeft(whole: Result<(Partitions, Bytes), Error>, rest: Bytes, k: nat, codec: ContainerCodec, acc: Partitions) {
    whole == DecodePartitions(rest, k, codec, acc)
  }

  /** Adding a topic whose containers no other topic holds keeps the map unshared. */
  lemma UnsharedAddTopic(recs: RecordsMap, t: Name, ps: map<Int32, Records>)
    requires UnsharedIn(recs) && DistinctContainers(ps)
    requires forall u, q, p :: u in recs && q in recs[u] && p in ps ==> recs[u][q].Obj() != ps[p].Obj()
    ensures UnsharedIn(recs[t := ps])
  {
  }

  /**
   * partition, size, then a container decoded from exactly `size` bytes:
   * the first of `k` partitions still to read into `acc`. On success the
   * other `k - 1` continue from the bytes after it, with the new container
   * added; on failure the whole partition array fails with that error.
   */
  method ReadPartition(pd: PacketDecoder, codec: ContainerCodec, ghost k: nat, ghost acc: Partitions,
                       ghost whole: Result<(Partitions, Bytes), Error>)
    returns (r: Result<(Int32, Records), Error>, ghost c: Content)
    requires pd.Valid() && k > 0 && PartitionsLeft(whole, pd.Remaining(), k, codec, acc)
    modifies pd
    ensures pd.Valid()
    ensures r.Err? ==> whole == Err(r.error)
    ensures r.Ok? ==> fresh(r.value.1.Obj()) && ContentOf(r.value.1) == c
    ensures r.Ok? ==> PartitionsLeft(whole, pd.Remaining(), k - 1, codec, acc[r.value.0 := c])
  {
    assert whole == PartitionsAfter(DecodePartition(pd.Remaining(), codec), k - 1, codec, acc);
    c := LegacyContent([]);
    var partition := pd.GetInt32();
    if partition.Err? {
      r := Err(partition.error);
      return;
    }
    var size := pd.GetInt32();
    if size.Err? {
      r := Err(size.error);
      return;
    }
    var subset := pd.GetSubset(size.value);
    if subset.Err? {
      r := Err(subset.error);
      return;
    }
    var content := codec.decode(subset.value);
    if content.Err? {
      r := Err(content.error);
      return;
    }
    var records := NewRecords(content.value);
    r := Ok((partition.value, records));
    c := content.value;
  }

  /**
   * One iteration of the partition loop: the next partition read and stored
   * under its id in `ps`, replacing any container stored there before.
   */
  method ReadPartitionInto(pd: PacketDecoder, codec: ContainerCodec, ps: map<Int32, Records>,
                           ghost k: nat, ghost acc: Partitions, ghost whole: Result<(Partitions, Bytes), Error>)
    returns (r: Result<map<Int32, Records>, Error>, ghost acc': Partitions)
    requires pd.Valid() && k > 0 && PartitionsLeft(whole, pd.Remaining(), k, codec, acc)
    requires Holding(ps, acc) && DistinctContainers(ps)
    modifies pd
    ensures pd.Valid()
    ensures r.Err? ==> whole == Err(r.error)
    ensures r.Ok? ==> PartitionsLeft(whole, pd.Remaining(), k - 1, codec, acc')
    ensures r.Ok? ==> Holding(r.value, acc') && DistinctContainers(r.value)
    ensures r.Ok? ==> forall id :: id in r.value ==> (id in ps && r.value[id] == ps[id]) || fresh(r.value[id].Obj())
  {
    acc' := acc;
    assert forall s | s in PartitionSets(ps) :: allocated(s);
    assert forall b | b in PartitionBatches(ps) :: allocated(b);
    ghost var objs := set q | q in ps :: ps[q].Obj();
    assert forall o | o in objs :: allocated(o);
    ghost var c;
    var e;
    e, c := ReadPartition(pd, codec, k, acc, whole);
    if e.Err? {
      return Err(e.error), acc';
    }
    var partition := e.value.0;
    var records := e.value.1;
    assert Holding(ps, acc);
    assert records.Obj() !in objs;
    HoldingAdd(ps, acc, partition, records);
    DistinctAdd(ps, partition, records);
    r := Ok(ps[partition := records]);
    acc' := acc[partition := c];
  }

  /** `n` partitions; a repeated partition keeps the container read last. */
  method ReadPartitions(pd: PacketDecoder, n: nat, codec: ContainerCodec) returns (r: Result<map<Int32, Records>, Error>)
    requires pd.Valid()
    modifies pd
    ensures pd.Valid()
    ensures match DecodePartitions(old(pd.Remaining()), n, codec, map[])
      case Ok(d) => r.Ok? && Holding(r.value, d.0) && DistinctContainers(r.value)
        && (forall id :: id in r.value ==> fresh(r.value[id].Obj())) && pd.Remaining() == d.1
      case Err(x) => r == Err(x)
  {
    var ps: map<Int32, Records> := map[];
    ghost var acc: Partitions := map[];
    ghost var whole := DecodePartitions(pd.Remaining(), n, codec, map[]);
    var k: nat := n;
    while k > 0
      invariant pd.Valid() && PartitionsLeft(whole, pd.Remaining(), k, codec, acc)
      invariant Holding(ps, acc) && DistinctContainers(ps)
      invariant forall id :: id in ps ==> fresh(ps[id].Obj())
    {
      var next;
      next, acc := ReadPartitionInto(pd, codec, ps, k, acc, whole);
      if next.Err? {
        return Err(next.error);
      }
      ps := next.value;
      k := k - 1;
    }
    r := Ok(ps);
  }

  /** `whole` is what decoding the `k` topics still to read from `rest` into `acc` gives. */
  ghost predicate TopicsLeft(whole: Result<(Topics, Bytes), Error>, rest: Bytes, k: nat, codec: ContainerCodec, acc: Topics) {
    whole == DecodeTopics(rest, k, codec, acc)
  }

  /** Storing a topic whose containers hold `cps` shows `cps` for that topic. */
  lemma ViewOfAddTopic(recs: RecordsMap, t: Name, ps: map<Int32, Records>, cps: Partitions)
    requires Holding(ps, cps)
    ensures ViewOf(recs[t := ps]) == ViewOf(recs)[t := cps]
  {
    var m: RecordsMap := recs[t := ps];
    forall u, p ensures Lookup(ViewOf(m), u, p) == Lookup(ViewOf(recs)[t := cps], u, p) {
      if u == t && p in ps {
        assert ContentOf(ps[p]) == cps[p];
      }
    }
    TopicsExt(ViewOf(m), ViewOf(recs)[t := cps]);
  }

  /**
   * One pass of the topic loop: topic name, partition count, then that many
   * partitions, each in a fresh container. This is the first of `k` topics
   * still to read into `acc`: on success the other `k - 1` continue from the
   * bytes after it, with the topic's partition contents `cps` stored under its
   * name; on failure the whole topic array fails with that error.
   */
  method ReadTopic(pd: PacketDecoder, codec: ContainerCodec, ghost k: nat, ghost acc: Topics,
                   ghost whole: Result<(Topics, Bytes), Error>)
    returns (r: Result<(Name, map<Int32, Records>), Error>, ghost cps: Partitions)
    requires pd.Valid() && k > 0 && TopicsLeft(whole, pd.Remaining(), k, codec, acc)
    modifies pd
    ensures pd.Valid()
    ensures r.Err? ==> whole == Err(r.error)
    ensures r.Ok? ==> TopicsLeft(whole, pd.Remaining(), k - 1, codec, acc[r.value.0 := cps])
    ensures r.Ok? ==> Holding(r.value.1, cps) && DistinctContainers(r.value.1)
    ensures r.Ok? ==> forall id :: id in r.value.1 ==> fresh(r.value.1[id].Obj())
  {
    cps := map[];
    assert whole == TopicsAfter(DecodeTopic(pd.Remaining(), codec), k - 1, codec, acc);
    var topic := pd.GetString();
    if topic.Err? {
      return Err(topic.error), cps;
    }
    var partitionCount := pd.GetArrayLength();
    if partitionCount.Err? {
      return Err(partitionCount.error), cps;
    }
    ghost var partitionBytes := pd.Remaining();
    var partitions := ReadPartitions(pd, partitionCount.value, codec);
    if partitions.Err? {
      return Err(partitions.error), cps;
    }
    cps := DecodePartitions(partitionBytes, partitionCount.value, codec, map[]).value.0;
    r := Ok((topic.value, partitions.value));
  }

  /** Stores the next topic read under its name in `recs`, replacing any topic stored there before. */
  method ReadTopicInto(pd: PacketDecoder, codec: ContainerCodec, recs: RecordsMap,
                       ghost k: nat, ghost acc: Topics, ghost whole: Result<(Topics, Bytes), Error>)
    returns (r: Result<RecordsMap, Error>, ghost acc': Topics)
    requires pd.Valid() && k > 0 && TopicsLeft(whole, pd.Remaining(), k, codec, acc)
    requires ViewOf(recs) == acc && UnsharedIn(recs)
    modifies pd
    ensures pd.Valid()
    ensures r.Err? ==> whole == Err(r.error)
    ensures r.Ok? ==> TopicsLeft(whole, pd.Remaining(), k - 1, codec, acc') && ViewOf(r.value) == acc'
    ensures r.Ok? ==> UnsharedIn(r.value)
  {
    acc' := acc;
    ghost var cps;
    var e;
    e, cps := ReadTopic(pd, codec, k, acc, whole);
    if e.Err? {
      return Err(e.error), acc';
    }
    var topic := e.value.0;
    var ps := e.value.1;
    ViewUnchanged(recs);
    ViewOfAddTopic(recs, topic, ps, cps);
    assert forall u, q, p :: u in recs && q in recs[u] && p in ps ==> recs[u][q].Obj() != ps[p].Obj() by {
      forall u, q, p | u in recs && q in recs[u] && p in ps ensures recs[u][q].Obj() != ps[p].Obj() {
        assert old(allocated(recs[u][q].Obj()));
      }
    }
    UnsharedAddTopic(recs, topic, ps);
    r := Ok(recs[topic := ps]);
    acc' := acc[topic := cps];
  }

  /** `n` topics; a repeated topic replaces the partitions read for it before. */
  method ReadTopics(pd: PacketDecoder, n: nat, codec: ContainerCodec) returns (r: Result<RecordsMap, Error>)
    requires pd.Valid()
    modifies pd
    ensures pd.Valid()
    ensures match DecodeTopics(old(pd.Remaining()), n, codec, map[])
      case Ok(d) => r.Ok? && ViewOf(r.value) == d.0 && UnsharedIn(r.value) && pd.Remaining() == d.1
      case Err(x) => r == Err(x)
  {
    var recs: RecordsMap := map[];
    ghost var acc: Topics := map[];
    ghost var whole := DecodeTopics(pd.Remaining(), n, codec, map[]);
    var k: nat := n;
    while k > 0
      invariant pd.Valid() && TopicsLeft(whole, pd.Remaining(), k, codec, acc)
      invariant ViewOf(recs) == acc && UnsharedIn(recs)
    {
      var next;
      next, acc := ReadTopicInto(pd, codec, recs, k, acc, whole);
      if next.Err? {
        return Err(next.error);
      }
      recs := next.value;
      k := k - 1;
    }
    r := Ok(recs);
  }

  /**
   * Reads the topic array that follows the header: nothing when its count is
   * zero, otherwise a fresh map in which no two partitions share a container.
   */
  method ReadBody(pd: PacketDecoder, codec: ContainerCodec) returns (r: Result<Option<RecordsMap>, Error>)
    requires pd.Valid()
    modifies pd
    ensures pd.Valid()
    ensures match DecodeBody(old(pd.Remaining()), codec)
      case Ok(d) =>
        && r.Ok? && pd.Remaining() == d.1
        && (d.0.None? ==> r.value.None?)
        && (d.0.Some? ==> r.value.Some? && ViewOf(r.value.value) == d.0.value && UnsharedIn(r.value.value))
      case Err(x) => r == Err(x)
  {
    var topicCount := pd.GetArrayLength();
    if topicCount.Err? {
      return Err(topicCount.error);
    }
    if topicCount.value == 0 {
      return Ok(None);
    }
    var recs := ReadTopics(pd, topicCount.value, codec);
    if recs.Err? {
      return Err(recs.error);
    }
    r := Ok(Some(recs.value));
  }

  class ProduceRequest {
    var transactionalId: Option<Name>
    var requiredAcks: Int16
    var timeout: Int32
    var version: Int16
    var records: Option<RecordsMap>  // None is the nil map

    ghost function Sets(): set<MessageSet>
      reads this
    {
      SetsOf(TopicsOf(records))
    }

    ghost function Batches(): set<RecordBatch>
      reads this
    {
      BatchesOf(TopicsOf(records))
    }

    function View(): Topics
      reads this, Sets(), Batches()
    {
      ViewOf(TopicsOf(records))
    }

    function Value(): RequestValue
      reads this, Sets(), Batches()
    {
      RequestValue(transactionalId, requiredAcks, timeout, version, if records.Some? then Some(View()) else None)
    }

    ghost predicate Unshared()
      reads this
    {
      UnsharedIn(TopicsOf(records))
    }

    /**
     * When no container but `o` changed, every partition that held another
     * container still shows what it held.
     */
    twostate lemma OthersKept(new o: object)
      requires forall s :: s in old(Sets()) && s != o ==> unchanged(s)
      requires forall b :: b in old(Batches()) && b != o ==> unchanged(b)
      ensures ShowsOutside(old(View()), old(TopicsOf(records)), o)
    {
      var recs: RecordsMap := old(TopicsOf(records));
      forall u, q | Lookup(recs, u, q).Some? && recs[u][q].Obj() != o
        ensures Lookup(old(View()), u, q) == Lookup(ViewOf(recs), u, q)
      {
        match recs[u][q]
        case Legacy(s) => assert s in old(Sets());
        case Default(b) => assert b in old(Batches());
      }
    }

    /** A request built from its header fields, with no records yet. */
    constructor (transactionalId: Option<Name>, requiredAcks: Int16, timeout: Int32, version: Int16)
      ensures this.transactionalId == transactionalId && this.requiredAcks == requiredAcks
      ensures this.timeout == timeout && this.version == version && records.None?
    {
      this.transactionalId := transactionalId;
      this.requiredAcks := requiredAcks;
      this.timeout := timeout;
      this.version := version;
      records := None;
    }

    /** The oldest broker release that understands this request's version. */
    function RequiredVersion(): (v: KafkaVersion)
      reads this
      ensures v == V0_9_0_0 <==> version == 1
      ensures v == V0_10_0_0 <==> version == 2
      ensures v == V0_11_0_0 <==> version == 3
      ensures v == V2_1_0_0 <==> version == 7
      ensures v == MinVersion <==> version !in {1, 2, 3, 7}
    {
      match version
      case 1 => V0_9_0_0
      case 2 => V0_10_0_0
      case 3 => V0_11_0_0
      case 7 => V2_1_0_0
      case _ => MinVersion
    }

    /**
     * The first entry the rule matches, walking the topics, each ruled
     * topic's partitions and each container's entries in `order`.
     */
    method FindFirstMatch(rule: TopicRule, order: Order) returns (m: Option<Match>)
      requires Within(order, TopicsOf(records))
      ensures m == FindMatch(rule, old(View()), order)
    {
      var recs: RecordsMap := TopicsOf(records);
      ghost var v := ViewOf(recs);
      forall t, p | t in order.topics && p in order.partitions[t] ensures v[t][p] == ContentOf(recs[t][p]) {
        assert Lookup(recs, t, p).Some?;
      }
      m := ScanTopics(rule, recs, order, v);
    }

    /**
     * Writes the request: the transactional id from version 3 on, the acks,
     * the timeout, then every topic and its partitions in `order`. The first
     * failing write ends it with that write's error.
     */
    method Encode(pe: PacketEncoder, order: Order, codec: ContainerCodec) returns (err: Option<Error>)
      requires pe.Valid() && OrderFor(order, TopicsOf(records))
      modifies pe
      ensures pe.Valid() && (err.None? ==> pe.stack == old(pe.stack))
      ensures Within(order, TopicsOf(old(Value()).records))
      ensures Emitted(EncodeRequest(old(Value()), order, codec), err, old(pe.buf), pe.buf)
    {
      var value := Value();
      var v := TopicsOf(value.records);
      OrderForView(order, TopicsOf(records));
      EncodeRequestParts(value, order, codec);
      ghost var es := TopicEntries(v, order);
      err := WriteHeader(pe, value);
      if err.Some? {
        return;
      }
      ghost var b1 := pe.buf;
      EnumeratesCard(order.topics, v);
      err := pe.PutArrayLength(|v|);
      if err.Some? {
        return;
      }
      ghost var b2 := pe.buf;
      err := WriteTopics(pe, v, order, codec);
      EmittedThen(EncodeArrayLength(|es|), EncodeTopicList(es, codec), err, b1, b2, pe.buf);
      EmittedThen(EncodeHeader(value), Concat(EncodeArrayLength(|es|), EncodeTopicList(es, codec)), err, old(pe.buf), b1, pe.buf);
    }

    /**
     * Reads the header: the transactional id only from version 3 on, then
     * the acks, each assigned once its read has succeeded, then the timeout,
     * assigned the INT32 read's value before its error is tested. A read that
     * fails stops there, keeping what was assigned.
     */
    method ReadHeader(pd: PacketDecoder, version: Int16) returns (r: Result<Decoded, Error>)
      requires pd.Valid()
      modifies this, pd
      ensures pd.Valid() && Stepped(DecodeHeader(old(pd.Remaining()), version), r, pd.raw, pd.off)
      ensures Decoded(transactionalId, requiredAcks, timeout, None)
           == HeaderRead(old(pd.Remaining()), version, Decoded(old(transactionalId), old(requiredAcks), old(timeout), None), pd.failedInt32)
      ensures records == old(records) && this.version == old(this.version)
    {
      if version >= 3 {
        var id := pd.GetNullableString();
        if id.Err? {
          return Err(id.error);
        }
        transactionalId := id.value;
      }
      var acks := pd.GetInt16();
      if acks.Err? {
        return Err(acks.error);
      }
      requiredAcks := acks.value;
      var t := pd.GetInt32();
      timeout := if t.Ok? then t.value else pd.failedInt32;
      if t.Err? {
        return Err(t.error);
      }
      r := Ok(Decoded(if version >= 3 then transactionalId else None, requiredAcks, timeout, None));
    }

    /**
     * Reads a request back. The version is set first; the transactional id is
     * read only from version 3 on; a topic count of zero leaves the map as it
     * was; otherwise the map is replaced by the topics read, no two partitions
     * sharing a container.
     */
    method Decode(pd: PacketDecoder, version: Int16, codec: ContainerCodec) returns (err: Option<Error>)
      requires pd.Valid()
      modifies this, pd
      ensures pd.Valid() && this.version == version
      ensures match DecodeRequest(old(pd.Remaining()), version, codec)
        case Ok(d) =>
          && err.None? && pd.Remaining() == d.1
          && requiredAcks == d.0.requiredAcks && timeout == d.0.timeout
          && transactionalId == (if version >= 3 then d.0.transactionalId else old(transactionalId))
          && (d.0.records.None? ==> records == old(records))
          && (d.0.records.Some? ==> records.Some? && View() == d.0.records.value && Unshared())
        case Err(x) =>
          && err == Some(x) && records == old(records)
          && Decoded(transactionalId, requiredAcks, timeout, None)
             == HeaderRead(old(pd.Remaining()), version, Decoded(old(transactionalId), old(requiredAcks), old(timeout), None), pd.failedInt32)
    {
      this.version := version;
      var header := ReadHeader(pd, version);
      if header.Err? {
        return Some(header.error);
      }
      var body := ReadBody(pd, codec);
      if body.Err? {
        return Some(body.error);
      }
      if body.value.Some? {
        label read:
        records := body.value;
        ViewUnchanged@read(body.value.value);
      }
      err := None;
    }

    /** Makes the map exist, and hold a partition map for `topic`. */
    method EnsureRecords(topic: Name, partition: Int32)
      modifies this`records
      ensures records == Some(WithTopic(old(records), topic))
    {
      var recs := TopicsOf(records);
      if topic !in recs {
        recs := recs[topic := map[]];
      }
      records := Some(recs);
    }

    /** The message set held for topic/partition, if that is where a legacy container is. */
    function LegacySetAt(topic: Name, partition: Int32): set<object>
      reads this
    {
      var cell := Lookup(TopicsOf(records), topic, partition);
      if cell.Some? && cell.value.Legacy? then {cell.value.msgSet} else {}
    }

    /**
     * Appends `msg` to the message set of topic/partition; a partition with
     * no container, or with a batch, gets a new set holding just `msg`.
     * Every partition sharing the set sees the message.
     */
    method AddMessage(topic: Name, partition: Int32, msg: Message)
      modifies this`records, LegacySetAt(topic, partition)
      ensures records.Some?
      ensures var cell := Lookup(records.value, topic, partition);
        && cell.Some? && cell.value.Legacy?
        && records.value == Place(TopicsOf(old(records)), topic, partition, cell.value)
      ensures var before := old(Lookup(TopicsOf(records), topic, partition));
        var target := Lookup(records.value, topic, partition).value.msgSet;
        if before.Some? && before.value.Legacy? then
          target == before.value.msgSet && target.messages == old(target.messages) + [MessageBlock(0, msg)]
        else
          fresh(target) && target.messages == [MessageBlock(0, msg)]
      ensures old(Unshared()) ==> Unshared() && View() == AddedMessage(old(View()), topic, partition, msg)
    {
      ghost var before: RecordsMap := TopicsOf(records);
      EnsureRecords(topic, partition);
      ViewKept(before);
      UnsharedWithTopic(old(records), topic);
      AddedAfterReserve(old(records), topic, partition, msg);
      ghost var target := AddedMessage(View(), topic, partition, msg);
      assert target == AddedMessage(old(View()), topic, partition, msg);
      var recs: RecordsMap := records.value;
      if partition in recs[topic] && recs[topic][partition].Legacy? {
        TopicsExt(recs, Place(before, topic, partition, recs[topic][partition]));
        AppendBlock(topic, partition, MessageBlock(0, msg));
      } else {
        InstallSet(topic, partition, msg);
        PlaceWithTopic(old(records), topic, partition, records.value[topic][partition]);
      }
    }

    /**
     * Appends `block` to the message set held for topic/partition. Every
     * partition sharing the set sees it; when none does, the view changes
     * at topic/partition alone.
     */
    method AppendBlock(topic: Name, partition: Int32, block: MessageBlock)
      requires records.Some? && topic in records.value && partition in records.value[topic]
      requires records.value[topic][partition].Legacy?
      modifies records.value[topic][partition].msgSet
      ensures var target := records.value[topic][partition].msgSet;
        && target.messages == old(target.messages) + [block]
        && (old(Unshared()) ==> View() == Place(old(View()), topic, partition, LegacyContent(target.messages)))
    {
      var recs: RecordsMap := records.value;
      var ms := recs[topic][partition].msgSet;
      ghost var v0 := View();
      ms.messages := ms.messages + [block];
      OthersKept(ms);
      if old(Unshared()) {
        ReplacedView(recs, v0, topic, partition);
      }
    }

    /** AddMessage on a partition with no container, or with a batch. */
    method InstallSet(topic: Name, partition: Int32, msg: Message)
      requires records.Some? && topic in records.value
      requires partition in records.value[topic] ==> records.value[topic][partition].Default?
      modifies this`records
      ensures records.Some? && topic in records.value && partition in records.value[topic]
      ensures var cell := records.value[topic][partition];
        && cell.Legacy? && fresh(cell.msgSet) && cell.msgSet.messages == [MessageBlock(0, msg)]
        && records.value == Place(old(records.value), topic, partition, cell)
      ensures old(Unshared()) ==> Unshared() && View() == AddedMessage(old(View()), topic, partition, msg)
    {
      ghost var before: RecordsMap := records.value;
      ghost var v0 := View();
      assert LegacyMessages(Lookup(v0, topic, partition)) == [];
      var ms := new MessageSet([]);
      forall u, q | Lookup(before, u, q).Some? ensures before[u][q].Obj() != ms {
        assert old(allocated(before[u][q].Obj()));
      }
      var placed := Place(records.value, topic, partition, Legacy(ms));
      assert Lookup(placed, topic, partition) == Some(Legacy(ms));
      records := Some(placed);
      ms.AddMessage(msg);
      ViewKept(before);
      ViewOfPlace(before, topic, partition, Legacy(ms));
      assert View() == AddedMessage(v0, topic, partition, msg);
      if old(Unshared()) {
        UnsharedPlace(before, topic, partition, Legacy(ms));
      }
    }

    /** Holds `ms` for topic/partition, replacing whatever was there. */
    method AddSet(topic: Name, partition: Int32, ms: MessageSet)
      modifies this`records
      ensures records == Some(Place(TopicsOf(old(records)), topic, partition, Legacy(ms)))
      ensures View() == Place(old(View()), topic, partition, LegacyContent(ms.messages))
      ensures old(Unshared()) && ms !in old(Sets()) ==> Unshared()
    {
      Install(topic, partition, Legacy(ms));
    }

    /** Holds `batch` for topic/partition, replacing whatever was there. */
    method AddBatch(topic: Name, partition: Int32, batch: RecordBatch)
      modifies this`records
      ensures records == Some(Place(TopicsOf(old(records)), topic, partition, Default(batch)))
      ensures View() == Place(old(View()), topic, partition, ContentOf(Default(batch)))
      ensures old(Unshared()) && batch !in old(Batches()) ==> Unshared()
    {
      Install(topic, partition, Default(batch));
    }

    /** Reserves the topic and stores `cell` for topic/partition. */
    method Install(topic: Name, partition: Int32, cell: Records)
      modifies this`records
      ensures records == Some(Place(TopicsOf(old(records)), topic, partition, cell))
      ensures View() == Place(old(View()), topic, partition, ContentOf(cell))
      ensures old(Unshared()) && cell.Obj() !in old(Sets()) && cell.Obj() !in old(Batches()) ==> Unshared()
    {
      ghost var before: RecordsMap := TopicsOf(records);
      EnsureRecords(topic, partition);
      records := Some(Place(records.value, topic, partition, cell));
      PlaceWithTopic(old(records), topic, partition, cell);
      ViewUnchanged(before);
      ViewOfPlace(before, topic, partition, cell);
      if old(Unshared()) && cell.Obj() !in old(Sets()) && cell.Obj() !in old(Batches()) {
        forall u, q | u in before && q in before[u] ensures before[u][q].Obj() != cell.Obj() {
          match before[u][q]
          case Legacy(s) => assert s in SetsOf(before);
          case Default(b) => assert b in BatchesOf(before);
        }
        UnsharedPlace(before, topic, partition, cell);
      }
    }

    /**
     * Moves the first entry `rule` matches to the partition of the same
     * number under the topic the rule names, as written: at most one entry
     * moves, and the rewrite always reports success. The `order` is the
     * walk of the topic map and of each partition map.
     */
    method ChangeTopic(rule: TopicRule, order: Order) returns (outcome: Outcome)
      requires OrderFor(order, TopicsOf(records))
      modifies this`records, Sets(), Batches()
      ensures var found := FindMatch(rule, old(View()), order);
        found.None? ==> outcome == Returned && records == old(records) && View() == old(View())
      ensures var found := FindMatch(rule, old(View()), order);
        found.Some? ==> (outcome == NilDereference <==> AsWritten(old(View()), found.value).None?)
      ensures var found := FindMatch(rule, old(View()), order);
        found.Some? && old(Unshared()) && outcome == Returned ==> View() == AsWritten(old(View()), found.value).value
      ensures var found := FindMatch(rule, old(View()), order);
        found.Some? ==>
          var m := found.value;
          var pruned := TakeOut(old(View()), m);
          var aliased := Lookup(pruned, m.topic, m.partition).Some? && Lookup(pruned, m.dest, m.partition).None?;
          && (old(Unshared()) && outcome == Returned && !aliased ==> Unshared())
          && (outcome == Returned && aliased ==> records.Some? && Lookup(records.value, m.topic, m.partition) == Lookup(records.value, m.dest, m.partition))
    {
      ghost var v0 := View();
      ghost var recs0: RecordsMap := TopicsOf(records);
      ViewShaped(recs0);
      var found := FindFirstMatch(rule, order);
      ViewUnchanged(recs0);
      if found.None? {
        return Returned;
      }
      var m := found.value;
      var cell := records.value[m.topic][m.partition];
      assert Lookup(v0, m.topic, m.partition) == Some(ContentOf(cell));
      match cell
      case Default(b) =>
        assert AsWritten(v0, m).None?;
        b.records := b.records[..m.index] + b.records[m.index + 1..];
        outcome := NilDereference;
      case Legacy(ms) =>
        outcome := MoveMessage(m);
    }

    /**
     * Moves the matched legacy message: out of its set, then into the set
     * at the destination partition, which is the source's own set when the
     * destination is new. A destination holding a record batch has no set
     * to append to.
     */
    method MoveMessage(m: Match) returns (outcome: Outcome)
      requires records.Some? && Lookup(records.value, m.topic, m.partition).Some?
      requires records.value[m.topic][m.partition].Legacy?
      requires m.index < |records.value[m.topic][m.partition].msgSet.messages|
      modifies this`records, Sets()
      ensures records.Some?
      ensures outcome == NilDereference <==> AsWritten(old(View()), m).None?
      ensures old(Unshared()) && outcome == Returned ==> View() == AsWritten(old(View()), m).value
      ensures var pruned := TakeOut(old(View()), m);
        var aliased := Lookup(pruned, m.topic, m.partition).Some? && Lookup(pruned, m.dest, m.partition).None?;
        && (old(Unshared()) && outcome == Returned && !aliased ==> Unshared())
        && (aliased ==> outcome == Returned && Lookup(records.value, m.topic, m.partition) == Lookup(records.value, m.dest, m.partition))
    {
      ghost var v0 := View();
      ghost var sets := Sets();
      var ms := records.value[m.topic][m.partition].msgSet;
      var block := RemoveMessage(m);
      outcome := Deliver(m, ms, block, v0, sets);
    }

    /**
     * Appends the moved message at the destination partition, installing
     * the source's emptied set there when the partition is new. `v0` is the
     * view before the message was taken out.
     */
    method Deliver(m: Match, ms: MessageSet, block: MessageBlock, ghost v0: Topics, ghost sets: set<MessageSet>) returns (outcome: Outcome)
      requires m.topic in v0 && m.partition in v0[m.topic] && v0[m.topic][m.partition].LegacyContent?
      requires m.index < Size(v0[m.topic][m.partition]) && v0[m.topic][m.partition].messages[m.index] == block
      requires records.Some? && Shaped(TakeOut(v0, m), records.value)
      requires Lookup(records.value, m.topic, m.partition).Some? <==> Size(v0[m.topic][m.partition]) != 1
      requires Lookup(records.value, m.topic, m.partition) == None || Lookup(records.value, m.topic, m.partition) == Some(Legacy(ms))
      requires forall u, q :: Lookup(records.value, u, q).Some? && records.value[u][q].Legacy? ==> records.value[u][q].msgSet in sets
      modifies this`records, ms, sets
      ensures records.Some?
      ensures outcome == NilDereference <==> AsWritten(v0, m).None?
      ensures old(Unshared()) && old(OnlyAt(records.value, ms, m.topic, m.partition)) && old(View()) == TakeOut(v0, m) && outcome == Returned ==>
        View() == AsWritten(v0, m).value
      ensures var pruned := TakeOut(v0, m);
        var aliased := Lookup(pruned, m.topic, m.partition).Some? && Lookup(pruned, m.dest, m.partition).None?;
        && (old(Unshared()) && old(OnlyAt(records.value, ms, m.topic, m.partition)) && outcome == Returned && !aliased ==> Unshared())
        && (aliased ==> outcome == Returned && Lookup(records.value, m.topic, m.partition) == Lookup(records.value, m.dest, m.partition))
    {
      AsWrittenLegacy(v0, m);
      ghost var pruned: Topics := TakeOut(v0, m);
      var d := Lookup(records.value, m.dest, m.partition);
      assert d.Some? <==> Lookup(pruned, m.dest, m.partition).Some?;
      assert Lookup(records.value, m.topic, m.partition).Some? <==> Lookup(pruned, m.topic, m.partition).Some?;
      if d.None? {
        InstallMoved(m, ms, block);
        outcome := Returned;
      } else if d.value.Default? {
        assert pruned[m.dest][m.partition].DefaultContent?;
        outcome := NilDereference;
      } else {
        assert pruned[m.dest][m.partition].LegacyContent?;
        ghost var held := d.value.msgSet.messages;
        assert old(View()) == pruned ==> Lookup(pruned, m.dest, m.partition) == Some(LegacyContent(held));
        AppendBlock(m.dest, m.partition, block);
        outcome := Returned;
      }
    }

    /**
     * Takes the matched message out of its set, and drops the partition,
     * then the topic, once nothing is left in it.
     */
    method RemoveMessage(m: Match) returns (block: MessageBlock)
      requires records.Some? && Lookup(records.value, m.topic, m.partition).Some?
      requires records.value[m.topic][m.partition].Legacy?
      requires m.index < |records.value[m.topic][m.partition].msgSet.messages|
      modifies this`records, records.value[m.topic][m.partition].msgSet
      ensures var ms := old(records.value[m.topic][m.partition].msgSet);
        && block == old(ms.messages)[m.index]
        && ms.messages == old(ms.messages)[..m.index] + old(ms.messages)[m.index + 1..]
        && records == Some(if ms.messages == [] then Prune(old(records.value), m.topic, m.partition) else old(records.value))
        && (old(Unshared()) ==> Unshared() && OnlyAt(records.value, ms, m.topic, m.partition) && View() == TakeOut(old(View()), m))
      ensures var v := old(View());
        m.topic in v && m.partition in v[m.topic] && v[m.topic][m.partition] == LegacyContent(old(records.value[m.topic][m.partition].msgSet.messages))
      ensures Shaped(TakeOut(old(View()), m), records.value)
      ensures Lookup(records.value, m.topic, m.partition).Some? <==> |old(records.value[m.topic][m.partition].msgSet.messages)| != 1
      ensures forall u, q :: Lookup(records.value, u, q).Some? && records.value[u][q].Legacy? ==> records.value[u][q].msgSet in old(Sets())
    {
      var recs: RecordsMap := records.value;
      var ms := recs[m.topic][m.partition].msgSet;
      ghost var v0 := View();
      ghost var before := ms.messages;
      assert Lookup(v0, m.topic, m.partition) == Some(LegacyContent(before)) && Shaped(v0, recs) by {
        ViewShaped(recs);
      }
      block := ms.messages[m.index];
      ms.messages := ms.messages[..m.index] + ms.messages[m.index + 1..];
      if |ms.messages| == 0 {
        DropPartition(m.topic, m.partition);
      }
      TakeOutShaped(v0, recs, m);
      forall u, q | Lookup(records.value, u, q).Some? && records.value[u][q].Legacy?
        ensures records.value[u][q].msgSet in SetsOf(recs)
      {
        assert Lookup(recs, u, q) == Lookup(records.value, u, q);
      }
      OthersKept(ms);
      if old(Unshared()) {
        UnsharedOnlyAt(recs, m.topic, m.partition);
        TakenOutView(recs, v0, before, m);
        forall u, q | Lookup(records.value, u, q).Some? ensures Lookup(records.value, u, q) == Lookup(recs, u, q) {
        }
        SubShares(records.value, recs, m.topic, m.partition);
      }
    }

    /** Deletes a partition, and its topic once that has no partition left. */
    method DropPartition(topic: Name, partition: Int32)
      requires records.Some? && topic in records.value
      modifies this`records
      ensures records == Some(Prune(old(records.value), topic, partition))
    {
      var recs := records.value;
      var rest := recs[topic] - {partition};
      if |rest| == 0 {
        records := Some(recs - {topic});
      } else {
        records := Some(recs[topic := rest]);
      }
    }

    /**
     * The destination partition is new: the source's set is emptied,
     * installed there as well, and given the moved message. The source
     * partition, if it is still there, shares it.
     */
    method InstallMoved(m: Match, ms: MessageSet, block: MessageBlock)
      requires records.Some? && Lookup(records.value, m.dest, m.partition).None?
      requires Lookup(records.value, m.topic, m.partition) == None || Lookup(records.value, m.topic, m.partition) == Some(Legacy(ms))
      modifies this`records, ms
      ensures ms.messages == [block]
      ensures records == Some(Place(old(records.value), m.dest, m.partition, Legacy(ms)))
      ensures var shared := if Lookup(old(records.value), m.topic, m.partition).Some?
          then Place(old(View()), m.topic, m.partition, LegacyContent([block])) else old(View());
        old(OnlyAt(records.value, ms, m.topic, m.partition)) ==> View() == Place(shared, m.dest, m.partition, LegacyContent([block]))
      ensures Lookup(records.value, m.dest, m.partition) == Some(Legacy(ms))
      ensures Lookup(old(records.value), m.topic, m.partition).Some? ==> Lookup(records.value, m.topic, m.partition) == Some(Legacy(ms))
      ensures old(Unshared()) && old(OnlyAt(records.value, ms, m.topic, m.partition)) && Lookup(old(records.value), m.topic, m.partition).None? ==>
        Unshared()
    {
      var recs: RecordsMap := records.value;
      ghost var before: RecordsMap := recs;
      ghost var v0 := View();
      if m.dest !in recs {
        recs := recs[m.dest := map[]];
      }
      ms.messages := [];
      var ps: map<Int32, Records> := recs[m.dest][m.partition := Legacy(ms)];
      recs := recs[m.dest := ps];
      records := Some(recs);
      ms.messages := ms.messages + [block];
      TopicsExt(recs, Place(before, m.dest, m.partition, Legacy(ms)));
      if OnlyAt(before, ms, m.topic, m.partition) {
        OthersKept(ms);
        InstalledView(before, v0, m, ms);
        if UnsharedIn(before) && Lookup(before, m.topic, m.partition).None? {
          UnsharedPlace(before, m.dest, m.partition, Legacy(ms));
        }
      }
    }
  }
}
