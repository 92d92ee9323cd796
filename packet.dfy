/**
 * The Kafka protocol primitives a produce request is written with: big-endian
 * INT16/INT32, STRING (int16 length then bytes), NULLABLE_STRING (length -1 is
 * null), ARRAY (int32 count), and a length field that is reserved before a
 * body is written and back-filled once the body's size is known.
 *
 * The pure functions give the byte layout; `PacketEncoder` and `PacketDecoder`
 * are the stateful cursors the request's encode and decode write to and read
 * from, each method proved against those functions.
 */
module Packet {
  import opened Wrappers

  type Byte = b: int | 0 <= b < 0x100
  type Bytes = seq<Byte>

  const MaxInt16: int := 0x7fff
  const MaxInt32: int := 0x7fff_ffff

  type Int16 = x: int | -0x8000 <= x <= 0x7fff
  type Int32 = x: int | -0x8000_0000 <= x <= 0x7fff_ffff

  datatype Error =
    | InsufficientData        // fewer bytes remain than a field needs
    | InvalidStringLength     // a string length below what its type allows
    | InvalidArrayLength      // a negative array count
    | InvalidByteSliceLength  // a negative sub-reader length
    | StringTooLong           // a string longer than an int16 length can say
    | ArrayTooLong            // an array longer than an int32 count can say
    | LengthFieldOverflow     // a framed body longer than an int32 length can say
    | RecordsError            // reported by a record container's own codec

  function Pow256(n: nat): (p: nat)
    ensures p >= 1
  {
    if n == 0 then 1 else 256 * Pow256(n - 1)
  }

  /** The n-byte big-endian representation of `u` (modulo 256^n). */
  function BigEndian(u: nat, n: nat): (b: Bytes)
    ensures |b| == n
  {
    if n == 0 then [] else BigEndian(u / 256, n - 1) + [u % 256]
  }

  /** The unsigned value of a big-endian byte string. */
  function FromBigEndian(b: Bytes): (u: nat)
    ensures u < Pow256(|b|)
  {
    if b == [] then 0 else FromBigEndian(b[..|b| - 1]) * 256 + b[|b| - 1]
  }

  lemma {:induction false} FromBigEndianInverse(u: nat, n: nat)
    requires u < Pow256(n)
    ensures FromBigEndian(BigEndian(u, n)) == u
  {
    if n > 0 {
      var b := BigEndian(u, n);
      assert b[..n - 1] == BigEndian(u / 256, n - 1);
      FromBigEndianInverse(u / 256, n - 1);
    }
  }

  // Two's-complement fixed-width integers, big-endian.

  const Int16Width: nat := 2
  const Int32Width: nat := 4

  function Int16Bytes(x: Int16): (b: Bytes)
    ensures |b| == 2
  {
    BigEndian(if x < 0 then x + 0x1_0000 else x, Int16Width)
  }

  function Int16Of(b: Bytes): Int16
    requires |b| == 2
  {
    assert Pow256(2) == 0x1_0000;
    var u := FromBigEndian(b);
    if u <= MaxInt16 then u else u - 0x1_0000
  }

  function Int32Bytes(x: Int32): (b: Bytes)
    ensures |b| == 4
  {
    BigEndian(if x < 0 then x + 0x1_0000_0000 else x, Int32Width)
  }

  function Int32Of(b: Bytes): Int32
    requires |b| == 4
  {
    assert Pow256(4) == 0x1_0000_0000;
    var u := FromBigEndian(b);
    if u <= MaxInt32 then u else u - 0x1_0000_0000
  }

  lemma Int16RoundTrip(x: Int16)
    ensures Int16Of(Int16Bytes(x)) == x
  {
    assert Pow256(2) == 0x1_0000;
    FromBigEndianInverse(if x < 0 then x + 0x1_0000 else x, 2);
  }

  lemma Int32RoundTrip(x: Int32)
    ensures Int32Of(Int32Bytes(x)) == x
  {
    assert Pow256(4) == 0x1_0000_0000;
    FromBigEndianInverse(if x < 0 then x + 0x1_0000_0000 else x, 4);
  }

  // Strings and arrays, as the encoder writes them.

  function StringBytes(s: Bytes): Bytes
    requires |s| <= MaxInt16
  {
    Int16Bytes(|s|) + s
  }

  function NullableStringBytes(s: Option<Bytes>): Bytes
    requires s.Some? ==> |s.value| <= MaxInt16
  {
    match s
    case None => Int16Bytes(-1)
    case Some(v) => StringBytes(v)
  }

  function EncodeString(s: Bytes): Result<Bytes, Error> {
    if |s| > MaxInt16 then Err(StringTooLong) else Ok(StringBytes(s))
  }

  function EncodeNullableString(s: Option<Bytes>): Result<Bytes, Error> {
    if s.Some? && |s.value| > MaxInt16 then Err(StringTooLong) else Ok(NullableStringBytes(s))
  }

  function EncodeArrayLength(n: nat): Result<Bytes, Error> {
    if n > MaxInt32 then Err(ArrayTooLong) else Ok(Int32Bytes(n))
  }

  /**
   * Back-fills the 4-byte length field reserved at `start` with the number
   * of bytes written after it.
   */
  function Backfill(b: Bytes, start: nat): (r: Result<Bytes, Error>)
    requires start + 4 <= |b|
    ensures r.Ok? ==> |r.value| == |b|
  {
    var len := |b| - start - 4;
    if len > MaxInt32 then Err(LengthFieldOverflow)
    else Ok(b[..start] + Int32Bytes(len) + b[start + 4..])
  }

  /**
   * Reserving a length field, writing a body and back-filling the field
   * leaves the body framed behind its exact size.
   */
  lemma BackfillFrames(prefix: Bytes, body: Bytes)
    requires |body| <= MaxInt32
    ensures Backfill(prefix + [0, 0, 0, 0] + body, |prefix|) == Ok(prefix + Int32Bytes(|body|) + body)
  {
    var b := prefix + [0, 0, 0, 0] + body;
    assert b[..|prefix|] == prefix;
    assert b[|prefix| + 4..] == body;
  }

  // Reading: each read takes the unread bytes and yields a value and the bytes after it.

  /** `rest` is what is left of `b` once a prefix has been consumed. */
  predicate Suffix(rest: Bytes, b: Bytes) {
    |rest| <= |b| && rest == b[|b| - |rest|..]
  }

  function ReadInt16(b: Bytes): (r: Result<(Int16, Bytes), Error>)
    ensures r.Ok? ==> Suffix(r.value.1, b)
  {
    if |b| < 2 then Err(InsufficientData) else Ok((Int16Of(b[..2]), b[2..]))
  }

  function ReadInt32(b: Bytes): (r: Result<(Int32, Bytes), Error>)
    ensures r.Ok? ==> Suffix(r.value.1, b)
  {
    if |b| < 4 then Err(InsufficientData) else Ok((Int32Of(b[..4]), b[4..]))
  }

  function ReadArrayLength(b: Bytes): (r: Result<(nat, Bytes), Error>)
    ensures r.Ok? ==> Suffix(r.value.1, b)
  {
    var n :- ReadInt32(b);
    if n.0 < 0 then Err(InvalidArrayLength) else Ok((n.0, n.1))
  }

  function ReadString(b: Bytes): (r: Result<(Bytes, Bytes), Error>)
    ensures r.Ok? ==> Suffix(r.value.1, b)
  {
    var n :- ReadInt16(b);
    if n.0 < 0 then Err(InvalidStringLength)
    else if n.0 > |n.1| then Err(InsufficientData)
    else Ok((n.1[..n.0], n.1[n.0..]))
  }

  function ReadNullableString(b: Bytes): (r: Result<(Option<Bytes>, Bytes), Error>)
    ensures r.Ok? ==> Suffix(r.value.1, b)
  {
    var n :- ReadInt16(b);
    if n.0 == -1 then Ok((None, n.1))
    else if n.0 < -1 then Err(InvalidStringLength)
    else if n.0 > |n.1| then Err(InsufficientData)
    else Ok((Some(n.1[..n.0]), n.1[n.0..]))
  }

  /** The next `n` bytes, the range a bounded sub-reader is restricted to. */
  function ReadSubset(b: Bytes, n: int): (r: Result<(Bytes, Bytes), Error>)
    ensures r.Ok? ==> |r.value.0| == n && Suffix(r.value.1, b)
  {
    if n < 0 then Err(InvalidByteSliceLength)
    else if n > |b| then Err(InsufficientData)
    else Ok((b[..n], b[n..]))
  }

  // Reading back what was written, whatever follows it.

  lemma ReadInt16Inverse(x: Int16, rest: Bytes)
    ensures ReadInt16(Int16Bytes(x) + rest) == Ok((x, rest))
  {
    var b := Int16Bytes(x) + rest;
    assert b[..2] == Int16Bytes(x) && b[2..] == rest;
    Int16RoundTrip(x);
  }

  lemma ReadInt32Inverse(x: Int32, rest: Bytes)
    ensures ReadInt32(Int32Bytes(x) + rest) == Ok((x, rest))
  {
    var b := Int32Bytes(x) + rest;
    assert b[..4] == Int32Bytes(x) && b[4..] == rest;
    Int32RoundTrip(x);
  }

  lemma ReadArrayLengthInverse(n: nat, rest: Bytes)
    requires n <= MaxInt32
    ensures ReadArrayLength(Int32Bytes(n) + rest) == Ok((n, rest))
  {
    ReadInt32Inverse(n, rest);
  }

  lemma ReadStringInverse(s: Bytes, rest: Bytes)
    requires |s| <= MaxInt16
    ensures ReadString(StringBytes(s) + rest) == Ok((s, rest))
  {
    var t := s + rest;
    assert StringBytes(s) + rest == Int16Bytes(|s|) + t;
    ReadInt16Inverse(|s|, t);
    assert t[..|s|] == s && t[|s|..] == rest;
  }

  lemma ReadNullableStringInverse(s: Option<Bytes>, rest: Bytes)
    requires s.Some? ==> |s.value| <= MaxInt16
    ensures ReadNullableString(NullableStringBytes(s) + rest) == Ok((s, rest))
  {
    match s
    case None => ReadInt16Inverse(-1, rest);
    case Some(v) =>
      var t := v + rest;
      assert StringBytes(v) + rest == Int16Bytes(|v|) + t;
      ReadInt16Inverse(|v|, t);
      assert t[..|v|] == v && t[|v|..] == rest;
  }

  lemma ReadSubsetInverse(s: Bytes, rest: Bytes)
    ensures ReadSubset(s + rest, |s|) == Ok((s, rest))
  {
    assert (s + rest)[..|s|] == s && (s + rest)[|s|..] == rest;
  }

  /** `err` reports the outcome of writing `res` to a buffer that went from `before` to `after`. */
  predicate Wrote(res: Result<Bytes, Error>, err: Option<Error>, before: Bytes, after: Bytes) {
    match res
    case Ok(e) => err.None? && after == before + e
    case Err(x) => err == Some(x) && after == before
  }

  /**
   * `r` reports the outcome of the read `res`; on success the cursor over
   * `raw` now stands where the unread bytes `res` left begin.
   */
  predicate Stepped<T(==)>(res: Result<(T, Bytes), Error>, r: Result<T, Error>, raw: Bytes, after: nat) {
    match res
    case Ok(p) => r == Ok(p.0) && after <= |raw| && raw[after..] == p.1
    case Err(x) => r == Err(x)
  }

  /** A growing byte buffer with a stack of reserved length fields. */
  class PacketEncoder {
    var buf: Bytes
    var stack: seq<nat>  // offsets of the reserved, not yet back-filled length fields

    ghost predicate Valid()
      reads this
    {
      forall i :: 0 <= i < |stack| ==> stack[i] + 4 <= |buf|
    }

    constructor ()
      ensures Valid() && buf == [] && stack == []
    {
      buf := [];
      stack := [];
    }

    method PutInt16(x: Int16)
      requires Valid()
      modifies this
      ensures Valid() && stack == old(stack)
      ensures buf == old(buf) + Int16Bytes(x)
    {
      buf := buf + Int16Bytes(x);
    }

    method PutInt32(x: Int32)
      requires Valid()
      modifies this
      ensures Valid() && stack == old(stack)
      ensures buf == old(buf) + Int32Bytes(x)
    {
      buf := buf + Int32Bytes(x);
    }

    method PutArrayLength(n: nat) returns (err: Option<Error>)
      requires Valid()
      modifies this
      ensures Valid() && stack == old(stack)
      ensures Wrote(EncodeArrayLength(n), err, old(buf), buf)
    {
      if n > MaxInt32 {
        return Some(ArrayTooLong);
      }
      buf := buf + Int32Bytes(n);
      err := None;
    }

    method PutString(s: Bytes) returns (err: Option<Error>)
      requires Valid()
      modifies this
      ensures Valid() && stack == old(stack)
      ensures Wrote(EncodeString(s), err, old(buf), buf)
    {
      if |s| > MaxInt16 {
        return Some(StringTooLong);
      }
      buf := buf + StringBytes(s);
      err := None;
    }

    method PutNullableString(s: Option<Bytes>) returns (err: Option<Error>)
      requires Valid()
      modifies this
      ensures Valid() && stack == old(stack)
      ensures Wrote(EncodeNullableString(s), err, old(buf), buf)
    {
      if s.Some? && |s.value| > MaxInt16 {
        return Some(StringTooLong);
      }
      buf := buf + NullableStringBytes(s);
      err := None;
    }

    method PutRawBytes(b: Bytes)
      requires Valid()
      modifies this
      ensures Valid() && stack == old(stack)
      ensures buf == old(buf) + b
    {
      buf := buf + b;
    }

    /** Reserves a 4-byte length field at the current offset. */
    method Push()
      requires Valid()
      modifies this
      ensures Valid()
      ensures stack == old(stack) + [|old(buf)|]
      ensures buf == old(buf) + [0, 0, 0, 0]
    {
      stack := stack + [|buf|];
      buf := buf + [0, 0, 0, 0];
    }

    /** Back-fills the most recently reserved length field. */
    method Pop() returns (err: Option<Error>)
      requires Valid() && |stack| > 0
      modifies this
      ensures Valid()
      ensures stack == old(stack)[..|old(stack)| - 1]
      ensures match Backfill(old(buf), old(stack)[|old(stack)| - 1])
              case Ok(b) => err.None? && buf == b
              case Err(x) => err == Some(x) && buf == old(buf)
    {
      var start := stack[|stack| - 1];
      stack := stack[..|stack| - 1];
      var res := Backfill(buf, start);
      if res.Err? {
        return Some(res.error);
      }
      buf := res.value;
      err := None;
    }
  }

  /**
   * A read cursor over an immutable byte string. Like Go's `getInt32`, a
   * failed INT32 read also yields a value, `failedInt32`; which value that is
   * belongs to the decoder implementation, so it is fixed at construction.
   */
  class PacketDecoder {
    const raw: Bytes
    const failedInt32: Int32
    var off: nat

    ghost predicate Valid()
      reads this
    {
      off <= |raw|
    }

    constructor (raw: Bytes, failedInt32: Int32)
      ensures Valid() && this.raw == raw && this.failedInt32 == failedInt32 && off == 0
    {
      this.raw := raw;
      this.failedInt32 := failedInt32;
      off := 0;
    }

    /** The bytes not read yet. */
    function Remaining(): Bytes
      requires Valid()
      reads this
    {
      raw[off..]
    }

    method GetInt16() returns (r: Result<Int16, Error>)
      requires Valid()
      modifies this
      ensures Valid() && Stepped(ReadInt16(old(Remaining())), r, raw, off)
    {
      var res := ReadInt16(raw[off..]);
      if res.Err? {
        return Err(res.error);
      }
      r, off := Ok(res.value.0), |raw| - |res.value.1|;
    }

    method GetInt32() returns (r: Result<Int32, Error>)
      requires Valid()
      modifies this
      ensures Valid() && Stepped(ReadInt32(old(Remaining())), r, raw, off)
    {
      var res := ReadInt32(raw[off..]);
      if res.Err? {
        return Err(res.error);
      }
      r, off := Ok(res.value.0), |raw| - |res.value.1|;
    }

    method GetArrayLength() returns (r: Result<nat, Error>)
      requires Valid()
      modifies this
      ensures Valid() && Stepped(ReadArrayLength(old(Remaining())), r, raw, off)
    {
      var res := ReadArrayLength(raw[off..]);
      if res.Err? {
        return Err(res.error);
      }
      r, off := Ok(res.value.0), |raw| - |res.value.1|;
    }

    method GetString() returns (r: Result<Bytes, Error>)
      requires Valid()
      modifies this
      ensures Valid() && Stepped(ReadString(old(Remaining())), r, raw, off)
    {
      var res := ReadString(raw[off..]);
      if res.Err? {
        return Err(res.error);
      }
      r, off := Ok(res.value.0), |raw| - |res.value.1|;
    }

    method GetNullableString() returns (r: Result<Option<Bytes>, Error>)
      requires Valid()
      modifies this
      ensures Valid() && Stepped(ReadNullableString(old(Remaining())), r, raw, off)
    {
      var res := ReadNullableString(raw[off..]);
      if res.Err? {
        return Err(res.error);
      }
      r, off := Ok(res.value.0), |raw| - |res.value.1|;
    }

    /** The bytes of a sub-reader restricted to the next `n` bytes. */
    method GetSubset(n: int) returns (r: Result<Bytes, Error>)
      requires Valid()
      modifies this
      ensures Valid() && Stepped(ReadSubset(old(Remaining()), n), r, raw, off)
    {
      var res := ReadSubset(raw[off..], n);
      if res.Err? {
        return Err(res.error);
      }
      r, off := Ok(res.value.0), |raw| - |res.value.1|;
    }
  }
}
