/**
 * The per-partition record container of a produce request: either a legacy
 * message set or a default record batch. Both are objects that the request
 * holds by reference, so two partitions may share one; the request's rewrite
 * pass relies on (and suffers from) that sharing.
 *
 * The container's own wire layout is not modelled: a `ContainerCodec` stands
 * for it, mapping the container's content to and from uninterpreted bytes.
 */
module Containers {
  import opened Wrappers
  import opened Packet

  /** A legacy message; `inner` is the message set a compressed wrapper carries. */
  datatype Message = Message(key: Bytes, value: Bytes, inner: Option<seq<MessageBlock>>, compressedSize: int)

  datatype MessageBlock = MessageBlock(offset: int, msg: Message)

  /** A record of a default batch. */
  datatype Record = Record(key: Bytes, value: Bytes)

  class MessageSet {
    var messages: seq<MessageBlock>

    constructor (messages: seq<MessageBlock>)
      ensures this.messages == messages
    {
      this.messages := messages;
    }

    /** Appends `msg` wrapped in a block at offset 0. */
    method AddMessage(msg: Message)
      modifies this
      ensures messages == old(messages) + [MessageBlock(0, msg)]
    {
      messages := messages + [MessageBlock(0, msg)];
    }
  }

  class RecordBatch {
    var records: seq<Record>
    var compressedRecords: Option<Bytes>  // present only when the batch was compressed
    var recordsLen: int                   // encoded length of the records before compression

    constructor (records: seq<Record>, compressedRecords: Option<Bytes>, recordsLen: int)
      ensures this.records == records
      ensures this.compressedRecords == compressedRecords && this.recordsLen == recordsLen
    {
      this.records := records;
      this.compressedRecords := compressedRecords;
      this.recordsLen := recordsLen;
    }
  }

  /** The container held for one topic/partition: exactly one of the two formats. */
  datatype Records = Legacy(msgSet: MessageSet) | Default(batch: RecordBatch) {
    function Obj(): object {
      match this
      case Legacy(s) => s
      case Default(b) => b
    }
  }

  /** What a container holds, as a value. */
  datatype Content =
    | LegacyContent(messages: seq<MessageBlock>)
    | DefaultContent(records: seq<Record>, compressedRecords: Option<Bytes>, recordsLen: int)

  function ContentOf(r: Records): Content
    reads r.Obj()
  {
    match r
    case Legacy(s) => LegacyContent(s.messages)
    case Default(b) => DefaultContent(b.records, b.compressedRecords, b.recordsLen)
  }

  /** A fresh container holding `c`, as a container's own decode builds one. */
  method NewRecords(c: Content) returns (r: Records)
    ensures fresh(r.Obj())
    ensures ContentOf(r) == c
  {
    match c
    case LegacyContent(ms) =>
      var s := new MessageSet(ms);
      r := Legacy(s);
    case DefaultContent(rs, cr, len) =>
      var b := new RecordBatch(rs, cr, len);
      r := Default(b);
  }

  /** A container's own encoder and decoder, over uninterpreted payload bytes. */
  datatype ContainerCodec = ContainerCodec(encode: Content -> Result<Bytes, Error>, decode: Bytes -> Result<Content, Error>)

  /** Decoding what the codec encoded gives the content back. */
  ghost predicate Invertible(codec: ContainerCodec) {
    forall c :: codec.encode(c).Ok? ==> codec.decode(codec.encode(c).value) == Ok(c)
  }

  // Record counting.

  /** A compressed wrapper counts the messages it wraps; a plain message counts one. */
  function BlockRecordCount(b: MessageBlock): nat {
    if b.msg.inner.Some? then |b.msg.inner.value| else 1
  }

  function LegacyRecordCount(ms: seq<MessageBlock>): nat {
    if ms == [] then 0 else LegacyRecordCount(ms[..|ms| - 1]) + BlockRecordCount(ms[|ms| - 1])
  }

  lemma {:induction false} LegacyRecordCountAppend(xs: seq<MessageBlock>, ys: seq<MessageBlock>)
    ensures LegacyRecordCount(xs + ys) == LegacyRecordCount(xs) + LegacyRecordCount(ys)
  {
    if ys != [] {
      var zs := xs + ys;
      assert zs[..|zs| - 1] == xs + ys[..|ys| - 1];
      LegacyRecordCountAppend(xs, ys[..|ys| - 1]);
    } else {
      assert xs + ys == xs;
    }
  }

  /** Without compressed wrappers every message is one record. */
  lemma {:induction false} UncompressedCountIsLength(ms: seq<MessageBlock>)
    requires forall i :: 0 <= i < |ms| ==> ms[i].msg.inner.None?
    ensures LegacyRecordCount(ms) == |ms|
  {
    if ms != [] {
      UncompressedCountIsLength(ms[..|ms| - 1]);
    }
  }

  /** The record count of a set is the sum of its blocks' counts, walking the blocks in order. */
  method UpdateMsgSetMetrics(msgSet: MessageSet) returns (topicRecordCount: int)
    ensures topicRecordCount == LegacyRecordCount(msgSet.messages)
  {
    topicRecordCount := 0;
    var i := 0;
    while i < |msgSet.messages|
      invariant 0 <= i <= |msgSet.messages|
      invariant topicRecordCount == LegacyRecordCount(msgSet.messages[..i])
    {
      var messageBlock := msgSet.messages[i];
      assert msgSet.messages[..i + 1][..i] == msgSet.messages[..i];
      if messageBlock.msg.inner.Some? {
        topicRecordCount := topicRecordCount + |messageBlock.msg.inner.value|;
      } else {
        topicRecordCount := topicRecordCount + 1;
      }
      i := i + 1;
    }
    assert msgSet.messages[..i] == msgSet.messages;
  }

  /** The record count of a batch is the number of its records. */
  method UpdateBatchMetrics(recordBatch: RecordBatch) returns (count: int)
    ensures count == |recordBatch.records|
  {
    count := |recordBatch.records|;
  }
}
