/** The static payload readers of `TixPacketSerDe`. The Jackson codec itself is
    a foreign library and is not modelled: stores keep the packet value, which is
    what `deserialize(serialize(p)) == p` allows. */
module PacketSerDe {
  import opened Wrappers
  import opened Bytes
  import opened Packets

  /** Size of one observation record in a message. */
  const RecordSize: nat := 45
  const LongBytes: nat := 8

  function Zeros(n: nat): (z: seq<byte>)
    ensures |z| == n && forall i :: 0 <= i < n ==> z[i] == 0
  {
    seq(n, _ => 0)
  }

  /** `Arrays.copyOfRange(message, 0, 8)`: the first eight bytes, padded on the
      right with zeros when the message is shorter. */
  function FirstEight(message: seq<byte>): (head: seq<byte>)
    ensures |head| == LongBytes
    ensures |message| >= LongBytes ==> head == message[..LongBytes]
    ensures forall i :: 0 <= i < LongBytes ==> head[i] == (if i < |message| then message[i] else 0)
  {
    if |message| >= LongBytes then message[..LongBytes] else message + Zeros(LongBytes - |message|)
  }

  /** `getFirstReportTimestamp`: the big-endian signed long at the start of the
      message. It is the key of a report in every store. */
  function FirstReportTimestamp(packet: Report): Int64 {
    ReadLong(FirstEight(packet.message))
  }

  datatype ReadError = IndexOutOfBounds(offset: nat)

  /** `ByteBuffer.getLong(offset)`. */
  function LongAt(message: seq<byte>, offset: nat): Int64
    requires offset + LongBytes <= |message|
  {
    ReadLong(message[offset .. offset + LongBytes])
  }

  /** The longs read at offsets `from`, `from + 45`, ... below the message length. */
  function TimestampsFrom(message: seq<byte>, from: nat): (r: Result<seq<Int64>, ReadError>)
    ensures r.Success? <==> StrideFits(|message| - from)
    ensures r.Success? ==> |r.value| == StrideCount(|message| - from)
    ensures r.Success? ==> ReadsEvery45(message, from, r.value)
    decreases |message| - from
  {
    if from >= |message| then Success([])
    else if from + 8 > |message| then Failure(IndexOutOfBounds(from))
    else
      StrideStep(|message| - from);
      match TimestampsFrom(message, from + 45)
      case Failure(e) => Failure(e)
      case Success(rest) =>
        ReadsEvery45Cons(message, from, rest);
        Success([LongAt(message, from)] + rest)
  }

  /** `values[j]` is the long at offset `from + 45 * j`, for every `j`. */
  predicate ReadsEvery45(message: seq<byte>, from: nat, values: seq<Int64>) {
    forall j :: 0 <= j < |values| ==>
      from + 45 * j + 8 <= |message| && values[j] == LongAt(message, from + 45 * j)
  }

  lemma ReadsEvery45Cons(message: seq<byte>, from: nat, rest: seq<Int64>)
    requires from + 8 <= |message|
    requires ReadsEvery45(message, from + 45, rest)
    ensures ReadsEvery45(message, from, [LongAt(message, from)] + rest)
  {
    var r := [LongAt(message, from)] + rest;
    forall j | 1 <= j < |r|
      ensures from + 45 * j + 8 <= |message| && r[j] == LongAt(message, from + 45 * j)
    {
      var k := j - 1;
      assert r[j] == rest[k];
      assert from + 45 * j == (from + 45) + 45 * k;
    }
  }

  /** Reading longs every 45 bytes over `d` remaining bytes never runs short. */
  predicate StrideFits(d: int) {
    d <= 0 || !(0 < d % 45 < 8)
  }

  /** The number of 45-byte strides that start inside `d` remaining bytes. */
  function StrideCount(d: int): nat {
    if d <= 0 then 0 else (d + 45 - 1) / 45
  }

  /** The remainder and record count after stepping over one record. */
  lemma StrideStep(d: int)
    requires d >= 8
    ensures StrideFits(d - 45) <==> StrideFits(d)
    ensures StrideCount(d - 45) + 1 == StrideCount(d)
  {
    if d <= 45 {
      assert d % 45 == if d == 45 then 0 else d;
    } else {
      assert (d - 45) % 45 == d % 45;
      assert (d - 1) / 45 == (d - 1 - 45) / 45 + 1;
    }
  }

  /** `getReportTimestamps`: one long every 45 bytes. `ByteBuffer.getLong`
      throws when fewer than eight bytes remain at an offset. */
  function ReportTimestamps(packet: Report): (r: Result<seq<Int64>, ReadError>)
    ensures r.Success? <==> !(0 < |packet.message| % RecordSize < LongBytes)
    ensures r.Success? ==> |r.value| == (|packet.message| + RecordSize - 1) / RecordSize
    ensures r.Success? ==> forall j :: 0 <= j < |r.value| ==>
      RecordSize * j + LongBytes <= |packet.message| && r.value[j] == LongAt(packet.message, RecordSize * j)
  {
    TimestampsFrom(packet.message, 0)
  }

  /** For a message of whole records, the first of the report timestamps is
      the first report timestamp. */
  lemma FirstOfReportTimestamps(packet: Report)
    requires |packet.message| >= LongBytes
    requires ReportTimestamps(packet).Success?
    ensures |ReportTimestamps(packet).value| >= 1
    ensures ReportTimestamps(packet).value[0] == FirstReportTimestamp(packet)
  {
    assert packet.message[0 .. LongBytes] == packet.message[..LongBytes];
  }

  /** A long written at the front of a message is its key. */
  lemma FirstReportTimestampOfPutLong(packet: Report, x: Int64)
    requires |packet.message| >= LongBytes && packet.message[..LongBytes] == PutLong(x)
    ensures FirstReportTimestamp(packet) == x
  {
  }

  /** Messages shorter than eight bytes read as if zero-padded: the empty
      message has key 0. */
  lemma EmptyMessageKey(packet: Report)
    requires |packet.message| == 0
    ensures FirstReportTimestamp(packet) == 0
  {
    Pow256Widths();
    var head := FirstEight(packet.message);
    assert head == Zeros(8);
    UnsignedOfZeros(head);
  }

  lemma {:induction false} UnsignedOfZeros(bs: seq<byte>)
    requires forall i :: 0 <= i < |bs| ==> bs[i] == 0
    ensures Unsigned(bs) == 0
  {
    if |bs| > 0 {
      UnsignedOfZeros(bs[..|bs| - 1]);
    }
  }
}
