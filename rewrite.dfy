/**
 * The topic rewrite pass of a produce request, as values: the scan that finds
 * the first entry a topic rule matches, and what moving that entry does to
 * the topic -> partition -> container map.
 *
 * The rule provider is a pair of interfaces with no logic of their own; here
 * it is a record of functions.
 */
module Rewrite {
  import opened Wrappers
  import opened Packet
  import opened Containers
  import opened ProduceWire

  /**
   * `checkClientTopicIsRule(topic)` says whether a topic has a rule;
   * `checkIsReplaceTopic(topic, key, value)` is that topic's rule applied to
   * an entry, giving whether it matches and the configuration key it matched;
   * `brokerTopic(topic, configKey)` is the topic the entry moves to.
   */
  datatype TopicRule = TopicRule(
    checkClientTopicIsRule: Name -> bool,
    checkIsReplaceTopic: (Name, Bytes, Bytes) -> (bool, Bytes),
    brokerTopic: (Name, Bytes) -> Name)

  // Entries of a container, whatever its format.

  function Size(c: Content): nat {
    match c
    case LegacyContent(ms) => |ms|
    case DefaultContent(rs, _, _) => |rs|
  }

  /** Key and value of the i-th message or record. */
  function KeyValue(c: Content, i: nat): (Bytes, Bytes)
    requires i < Size(c)
  {
    match c
    case LegacyContent(ms) => (ms[i].msg.key, ms[i].msg.value)
    case DefaultContent(rs, _, _) => (rs[i].key, rs[i].value)
  }

  /** The broker topic an entry of `topic` moves to, if the topic's rule matches it. */
  function Hit(rule: TopicRule, topic: Name, kv: (Bytes, Bytes)): Option<Name> {
    var res := rule.checkIsReplaceTopic(topic, kv.0, kv.1);
    if res.0 then Some(rule.brokerTopic(topic, res.1)) else None
  }

  predicate Misses(rule: TopicRule, topic: Name, c: Content) {
    forall j :: 0 <= j < Size(c) ==> Hit(rule, topic, KeyValue(c, j)).None?
  }

  // The scan.

  /** Where the entry to move is, and where it goes. */
  datatype Match = Match(topic: Name, partition: Int32, index: nat, dest: Name)

  /** `m` is an entry of a ruled topic that the rule matches, the first one in its container. */
  predicate Matches(rule: TopicRule, topics: Topics, m: Match) {
    && m.topic in topics && m.partition in topics[m.topic]
    && rule.checkClientTopicIsRule(m.topic)
    && var c := topics[m.topic][m.partition];
    && m.index < Size(c)
    && Hit(rule, m.topic, KeyValue(c, m.index)) == Some(m.dest)
    && forall j :: 0 <= j < m.index ==> Hit(rule, m.topic, KeyValue(c, j)).None?
  }

  function FindInContent(rule: TopicRule, topic: Name, c: Content, i: nat): (r: Option<(nat, Name)>)
    requires i <= Size(c)
    ensures r.Some? ==> i <= r.value.0 < Size(c) && Hit(rule, topic, KeyValue(c, r.value.0)) == Some(r.value.1)
    ensures r.Some? ==> forall j :: i <= j < r.value.0 ==> Hit(rule, topic, KeyValue(c, j)).None?
    ensures r.None? ==> forall j :: i <= j < Size(c) ==> Hit(rule, topic, KeyValue(c, j)).None?
    decreases Size(c) - i
  {
    if i == Size(c) then None
    else
      var h := Hit(rule, topic, KeyValue(c, i));
      if h.Some? then Some((i, h.value)) else FindInContent(rule, topic, c, i + 1)
  }

  /** `p` is listed in `ids`, and every partition listed before it has no entry the rule matches. */
  predicate FirstPartition(rule: TopicRule, topic: Name, ps: Partitions, ids: seq<Int32>, p: Int32)
    requires forall id :: id in ids ==> id in ps
  {
    exists k :: 0 <= k < |ids| && ids[k] == p && forall j :: 0 <= j < k ==> Misses(rule, topic, ps[ids[j]])
  }

  /**
   * `t` is listed in the order, and every ruled topic listed before it has no
   * entry the rule matches in any partition the order walks.
   */
  predicate FirstTopic(rule: TopicRule, topics: Topics, order: Order, t: Name)
    requires Within(order, topics)
  {
    exists k :: 0 <= k < |order.topics| && order.topics[k] == t &&
      forall j :: 0 <= j < k && rule.checkClientTopicIsRule(order.topics[j]) ==>
        forall p :: p in order.partitions[order.topics[j]] ==> Misses(rule, order.topics[j], topics[order.topics[j]][p])
  }

  function FindInPartitions(rule: TopicRule, topic: Name, ps: Partitions, ids: seq<Int32>): (r: Option<Match>)
    requires forall id :: id in ids ==> id in ps
    ensures r.Some? ==> r.value.topic == topic && FirstPartition(rule, topic, ps, ids, r.value.partition)
    ensures r.Some? ==> var c := ps[r.value.partition];
      && r.value.index < Size(c)
      && Hit(rule, topic, KeyValue(c, r.value.index)) == Some(r.value.dest)
      && forall j :: 0 <= j < r.value.index ==> Hit(rule, topic, KeyValue(c, j)).None?
    ensures r.None? ==> forall id :: id in ids ==> Misses(rule, topic, ps[id])
    decreases |ids|
  {
    if ids == [] then None
    else
      var found := FindInContent(rule, topic, ps[ids[0]], 0);
      if found.Some? then Some(Match(topic, ids[0], found.value.0, found.value.1))
      else FindInPartitions(rule, topic, ps, ids[1..])
  }

  /**
   * The first match walking the topics, each topic's partitions and each
   * container's entries in order; topics without a rule are skipped.
   */
  function FindMatch(rule: TopicRule, topics: Topics, order: Order): (r: Option<Match>)
    requires Within(order, topics)
    ensures r.Some? ==> Matches(rule, topics, r.value) && r.value.topic in order.topics
    ensures r.Some? ==> FirstTopic(rule, topics, order, r.value.topic)
    ensures r.Some? ==> FirstPartition(rule, r.value.topic, topics[r.value.topic], order.partitions[r.value.topic], r.value.partition)
    ensures r.None? ==> forall t :: t in order.topics && rule.checkClientTopicIsRule(t) ==>
      forall p :: p in order.partitions[t] ==> Misses(rule, t, topics[t][p])
    decreases |order.topics|
  {
    if order.topics == [] then None
    else
      var t := order.topics[0];
      var here := if rule.checkClientTopicIsRule(t) then FindInPartitions(rule, t, topics[t], order.partitions[t]) else None;
      if here.Some? then
        assert order.topics[0] == t;
        here
      else
        var rest := FindMatch(rule, topics, order.(topics := order.topics[1..]));
        FirstTopicNext(rule, topics, order, rest);
        rest
  }

  /** A topic first in the order's tail is first in the order when the head topic misses. */
  lemma FirstTopicNext(rule: TopicRule, topics: Topics, order: Order, r: Option<Match>)
    requires Within(order, topics) && order.topics != []
    requires rule.checkClientTopicIsRule(order.topics[0]) ==>
      forall p :: p in order.partitions[order.topics[0]] ==> Misses(rule, order.topics[0], topics[order.topics[0]][p])
    requires r.Some? ==> FirstTopic(rule, topics, order.(topics := order.topics[1..]), r.value.topic)
    ensures r.Some? ==> FirstTopic(rule, topics, order, r.value.topic)
  {
    if r.Some? {
      var tail := order.(topics := order.topics[1..]);
      var k :| 0 <= k < |tail.topics| && tail.topics[k] == r.value.topic &&
        forall j :: 0 <= j < k && rule.checkClientTopicIsRule(tail.topics[j]) ==>
          forall p :: p in tail.partitions[tail.topics[j]] ==> Misses(rule, tail.topics[j], topics[tail.topics[j]][p]);
      assert order.topics[k + 1] == r.value.topic;
      forall j | 0 < j < k + 1
        ensures order.topics[j] == tail.topics[j - 1]
      {
      }
    }
  }

  /** When the order walks the whole map, no match means no ruled entry anywhere is matched. */
  lemma FindMatchComplete(rule: TopicRule, topics: Topics, order: Order)
    requires OrderFor(order, topics)
    requires FindMatch(rule, topics, order).None?
    ensures forall t, p :: t in topics && p in topics[t] && rule.checkClientTopicIsRule(t) ==> Misses(rule, t, topics[t][p])
  {
    forall t, p | t in topics && p in topics[t] && rule.checkClientTopicIsRule(t)
      ensures Misses(rule, t, topics[t][p])
    {
      assert t in order.topics && p in order.partitions[t];
    }
  }

  // Moving one entry, on container values.

  /** The container without its i-th entry. */
  function Without(c: Content, i: nat): (r: Content)
    requires i < Size(c)
    ensures Size(r) == Size(c) - 1
    ensures forall j :: 0 <= j < Size(r) ==> KeyValue(r, j) == KeyValue(c, if j < i then j else j + 1)
  {
    match c
    case LegacyContent(ms) => LegacyContent(ms[..i] + ms[i + 1..])
    case DefaultContent(rs, cr, n) => DefaultContent(rs[..i] + rs[i + 1..], cr, n)
  }

  predicate SameKind(c: Content, d: Content) {
    c.LegacyContent? == d.LegacyContent?
  }

  /** The container with the i-th entry of `src`, a container of the same format, appended. */
  function Appended(c: Content, src: Content, i: nat): (r: Content)
    requires SameKind(c, src) && i < Size(src)
    ensures Size(r) == Size(c) + 1 && KeyValue(r, Size(c)) == KeyValue(src, i)
    ensures forall j :: 0 <= j < Size(c) ==> KeyValue(r, j) == KeyValue(c, j)
  {
    match c
    case LegacyContent(ms) => LegacyContent(ms + [src.messages[i]])
    case DefaultContent(rs, cr, n) => DefaultContent(rs + [src.records[i]], cr, n)
  }

  /** The container with no entries left, keeping the rest of it. */
  function Emptied(c: Content): (r: Content)
    ensures Size(r) == 0 && SameKind(r, c)
  {
    match c
    case LegacyContent(_) => LegacyContent([])
    case DefaultContent(_, cr, n) => DefaultContent([], cr, n)
  }

  /** What is stored under topic t, partition p, if anything. */
  function Lookup<V>(m: map<Name, map<Int32, V>>, t: Name, p: Int32): Option<V> {
    if t in m && p in m[t] then Some(m[t][p]) else None
  }

  /** Deletes partition p of topic t, and the topic too if that was its last partition. */
  function Prune<V>(m: map<Name, map<Int32, V>>, t: Name, p: Int32): (r: map<Name, map<Int32, V>>)
    requires t in m
    ensures t in r <==> m[t] - {p} != map[]
    ensures t in r <==> m[t].Keys - {p} != {}
    ensures r.Keys - {t} == m.Keys - {t}
    ensures forall u, q :: Lookup(r, u, q) == if u == t && q == p then None else Lookup(m, u, q)
  {
    var ps := m[t] - {p};
    if ps == map[] then
      assert ps.Keys == m[t].Keys - {p} == {};
      assert m[t].Keys <= {p};
      m - {t}
    else m[t := ps]
  }

  /** Stores v under topic d, partition p, creating the topic if absent. */
  function Place<V>(m: map<Name, map<Int32, V>>, d: Name, p: Int32, v: V): (r: map<Name, map<Int32, V>>)
    ensures r.Keys == m.Keys + {d}
    ensures forall u, q :: Lookup(r, u, q) == if u == d && q == p then Some(v) else Lookup(m, u, q)
  {
    var ps := if d in m then m[d] else map[];
    m[d := ps[p := v]]
  }

  /** Replaces what is stored under topic t, partition p, which must exist. */
  function Replace<V>(m: map<Name, map<Int32, V>>, t: Name, p: Int32, v: V): (r: map<Name, map<Int32, V>>)
    requires t in m && p in m[t]
    ensures r.Keys == m.Keys
    ensures forall u, q :: Lookup(r, u, q) == if u == t && q == p then Some(v) else Lookup(m, u, q)
  {
    var ps: map<Int32, V> := m[t][p := v];
    m[t := ps]
  }

  /** Removes the matched entry and prunes its partition, and then its topic, if nothing is left. */
  function TakeOut(topics: Topics, m: Match): (r: Topics)
    requires m.topic in topics && m.partition in topics[m.topic]
    requires m.index < Size(topics[m.topic][m.partition])
    ensures var c := topics[m.topic][m.partition];
      Lookup(r, m.topic, m.partition) == if Size(c) == 1 then None else Some(Without(c, m.index))
    ensures forall t, p :: t != m.topic || p != m.partition ==> Lookup(r, t, p) == Lookup(topics, t, p)
    ensures r.Keys - {m.topic} == topics.Keys - {m.topic}
    ensures m.topic in r <==> Size(topics[m.topic][m.partition]) != 1 || topics[m.topic].Keys != {m.partition}
  {
    var rest := Without(topics[m.topic][m.partition], m.index);
    if Size(rest) == 0 then Prune(topics, m.topic, m.partition)
    else Replace(topics, m.topic, m.partition, rest)
  }

  /**
   * What the rewrite does to the contents, as written, when no two
   * partitions share a container. None stands for a nil dereference: a
   * record batch is checked for emptiness through its (absent) message set,
   * and a legacy message cannot be appended to a destination holding a
   * batch. When the destination partition is new, the source's container
   * is emptied and installed there, so a source partition that still had
   * other messages ends up sharing the destination's single message.
   */
  function AsWritten(topics: Topics, m: Match): (r: Option<Topics>)
    requires m.topic in topics && m.partition in topics[m.topic]
    requires m.index < Size(topics[m.topic][m.partition])
    ensures r.Some? ==> forall t, p :: (t != m.topic || p != m.partition) && (t != m.dest || p != m.partition) ==>
      Lookup(r.value, t, p) == Lookup(topics, t, p)
  {
    var c := topics[m.topic][m.partition];
    if c.DefaultContent? then None
    else
      var pruned := TakeOut(topics, m);
      var d := Lookup(pruned, m.dest, m.partition);
      if d.Some? then
        if d.value.DefaultContent? then None
        else Some(Place(pruned, m.dest, m.partition, Appended(d.value, c, m.index)))
      else
        var moved := Appended(Emptied(c), c, m.index);
        var shared := if Size(c) == 1 then pruned else Place(pruned, m.topic, m.partition, moved);
        Some(Place(shared, m.dest, m.partition, moved))
  }

  /** The three outcomes of moving a legacy message as written, by what the pruned map holds at the destination. */
  lemma AsWrittenLegacy(topics: Topics, m: Match)
    requires m.topic in topics && m.partition in topics[m.topic]
    requires topics[m.topic][m.partition].LegacyContent? && m.index < Size(topics[m.topic][m.partition])
    ensures var c := topics[m.topic][m.partition];
      var pruned := TakeOut(topics, m);
      var d := Lookup(pruned, m.dest, m.partition);
      var one := LegacyContent([c.messages[m.index]]);
      && (d.None? ==> AsWritten(topics, m) == Some(Place(if Size(c) == 1 then pruned else Place(pruned, m.topic, m.partition, one), m.dest, m.partition, one)))
      && (d.Some? && d.value.DefaultContent? ==> AsWritten(topics, m).None?)
      && (d.Some? && d.value.LegacyContent? ==> AsWritten(topics, m) == Some(Place(pruned, m.dest, m.partition, LegacyContent(d.value.messages + [c.messages[m.index]]))))
  {
    var c := topics[m.topic][m.partition];
    assert Appended(Emptied(c), c, m.index) == LegacyContent([c.messages[m.index]]);
  }

  /**
   * The move as evidently intended: the entry leaves its container and is
   * appended to the destination partition's container, a fresh one of the
   * same format when there is none. None when the destination holds a
   * container of the other format, which cannot take the entry.
   */
  function Moved(topics: Topics, m: Match): (r: Option<Topics>)
    requires m.topic in topics && m.partition in topics[m.topic]
    requires m.index < Size(topics[m.topic][m.partition])
    ensures r.Some? ==> forall t, p :: (t != m.topic || p != m.partition) && (t != m.dest || p != m.partition) ==>
      Lookup(r.value, t, p) == Lookup(topics, t, p)
  {
    var c := topics[m.topic][m.partition];
    var pruned := TakeOut(topics, m);
    var d := Lookup(pruned, m.dest, m.partition);
    if d.Some? then
      if SameKind(d.value, c) then Some(Place(pruned, m.dest, m.partition, Appended(d.value, c, m.index))) else None
    else Some(Place(pruned, m.dest, m.partition, Appended(Emptied(c), c, m.index)))
  }

  function SizeAt(topics: Topics, t: Name, p: Int32): nat {
    var c := Lookup(topics, t, p);
    if c.Some? then Size(c.value) else 0
  }

  /**
   * Moving to another topic: the source container loses exactly the moved
   * entry, keeping the others in order (and is pruned if that was its only
   * one), and the destination container keeps its entries and gains the
   * moved one at the end.
   */
  lemma MovedToOtherTopic(topics: Topics, m: Match, r: Topics)
    requires m.topic in topics && m.partition in topics[m.topic]
    requires m.index < Size(topics[m.topic][m.partition])
    requires m.dest != m.topic
    requires Moved(topics, m) == Some(r)
    ensures var c := topics[m.topic][m.partition];
      Lookup(r, m.topic, m.partition) == if Size(c) == 1 then None else Some(Without(c, m.index))
    ensures var d := Lookup(r, m.dest, m.partition);
      && d.Some? && Size(d.value) == SizeAt(topics, m.dest, m.partition) + 1
      && KeyValue(d.value, Size(d.value) - 1) == KeyValue(topics[m.topic][m.partition], m.index)
      && forall j :: 0 <= j < Size(d.value) - 1 ==> KeyValue(d.value, j) == KeyValue(Lookup(topics, m.dest, m.partition).value, j)
  {
    var pruned := TakeOut(topics, m);
    assert Lookup(pruned, m.dest, m.partition) == Lookup(topics, m.dest, m.partition);
  }

  /**
   * Moving within the topic: the entry goes to the end of its own
   * container, the others keeping their order.
   */
  lemma MovedWithinTopic(topics: Topics, m: Match, r: Topics)
    requires m.topic in topics && m.partition in topics[m.topic]
    requires m.index < Size(topics[m.topic][m.partition])
    requires m.dest == m.topic
    requires Moved(topics, m) == Some(r)
    ensures var c := topics[m.topic][m.partition];
      Lookup(r, m.topic, m.partition) == Some(Appended(Without(c, m.index), c, m.index))
  {
    var c := topics[m.topic][m.partition];
    if Size(c) == 1 {
      match c
      case LegacyContent(ms) =>
        assert ms[..m.index] + ms[m.index + 1..] == [];
      case DefaultContent(rs, _, _) =>
        assert rs[..m.index] + rs[m.index + 1..] == [];
    }
  }

  // What the code as written loses, and what the intended move keeps.

  const Src: Name := [0x61]
  const Dst: Name := [0x62]

  function Plain(key: Bytes): MessageBlock {
    MessageBlock(0, Message(key, [], None, 0))
  }

  /** Every message of `Src` whose key is [1] moves to `Dst`. */
  function MoveKeyOne(): TopicRule {
    TopicRule(t => t == Src, (t, k, v) => (k == [1], []), (t, k) => Dst)
  }

  /**
   * Two messages in one partition, the first matching, and a destination
   * partition that does not exist yet: as written, the source partition is
   * left holding a copy of the moved message and the second message is gone;
   * the intended move leaves the second message behind.
   */
  lemma AliasingLosesMessages()
    ensures var topics := map[Src := map[0 := LegacyContent([Plain([1]), Plain([2])])]];
      var order := Order([Src], map[Src := [0]]);
      && FindMatch(MoveKeyOne(), topics, order) == Some(Match(Src, 0, 0, Dst))
      && var w := AsWritten(topics, Match(Src, 0, 0, Dst));
      && w.Some?
      && Lookup(w.value, Src, 0) == Some(LegacyContent([Plain([1])]))
      && Lookup(w.value, Dst, 0) == Some(LegacyContent([Plain([1])]))
      && var r := Moved(topics, Match(Src, 0, 0, Dst));
      && r.Some?
      && Lookup(r.value, Src, 0) == Some(LegacyContent([Plain([2])]))
      && Lookup(r.value, Dst, 0) == Some(LegacyContent([Plain([1])]))
  {
    var topics := map[Src := map[0 := LegacyContent([Plain([1]), Plain([2])])]];
    var c := topics[Src][0];
    var rule := MoveKeyOne();
    assert Hit(rule, Src, KeyValue(c, 0)) == Some(Dst);
    assert FindInContent(rule, Src, c, 0) == Some((0, Dst));
    assert FindInPartitions(rule, Src, topics[Src], [0]) == Some(Match(Src, 0, 0, Dst));
    var m := Match(Src, 0, 0, Dst);
    assert Without(c, 0) == LegacyContent([Plain([2])]);
    assert Appended(Emptied(c), c, 0) == LegacyContent([Plain([1])]);
    var pruned := TakeOut(topics, m);
    assert Lookup(pruned, Dst, 0) == None;
  }

  /**
   * A record batch whose only record matches: as written the rewrite
   * dereferences the batch's absent message set; the intended move empties
   * the source partition and appends the record to a fresh batch.
   */
  lemma BatchBranchDereferencesNil()
    ensures var batch := DefaultContent([Record([1], [])], None, 0);
      var topics := map[Src := map[0 := batch]];
      var order := Order([Src], map[Src := [0]]);
      && FindMatch(MoveKeyOne(), topics, order) == Some(Match(Src, 0, 0, Dst))
      && AsWritten(topics, Match(Src, 0, 0, Dst)).None?
      && var r := Moved(topics, Match(Src, 0, 0, Dst));
      && r.Some?
      && Lookup(r.value, Src, 0).None?
      && Lookup(r.value, Dst, 0) == Some(batch)
  {
    var batch := DefaultContent([Record([1], [])], None, 0);
    var topics := map[Src := map[0 := batch]];
    var rule := MoveKeyOne();
    assert Hit(rule, Src, KeyValue(batch, 0)) == Some(Dst);
    assert FindInContent(rule, Src, batch, 0) == Some((0, Dst));
    assert FindInPartitions(rule, Src, topics[Src], [0]) == Some(Match(Src, 0, 0, Dst));
    var m := Match(Src, 0, 0, Dst);
    assert Appended(Emptied(batch), batch, 0) == batch;
    var pruned := TakeOut(topics, m);
    assert Lookup(pruned, Dst, 0) == None;
  }
}
