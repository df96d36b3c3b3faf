/** What the test encoder promises its readers: the message of `n` rows is
    read back by `getReportTimestamps` as the `n` consecutive seconds from
    the starting timestamp, each row carries its packet type and size, and
    the clock readings advance 5 ms per reading and one second per row. */
module GeneratorProofs {
  import opened Wrappers
  import opened Bytes
  import opened Packets
  import opened PacketSerDe
  import opened PacketGenerator

  /** The `n` unix seconds from `s`, as `long` additions. */
  function Seconds(s: Int64, n: nat): (r: seq<Int64>)
    ensures |r| == n
    ensures forall i :: 0 <= i < n ==> r[i] == WrapInt64(s + i)
  {
    if n == 0 then [] else Seconds(s, n - 1) + [WrapInt64(s + (n - 1))]
  }

  // ---------------------------------------------------------------------
  // Rows

  /** A slice inside the left part of a concatenation. */
  lemma SliceLeft<T>(a: seq<T>, b: seq<T>, x: nat, y: nat)
    requires x <= y <= |a|
    ensures (a + b)[x..y] == a[x..y]
  {
  }

  /** The right part of a concatenation, sliced back out. */
  lemma SliceRight<T>(a: seq<T>, b: seq<T>)
    ensures (a + b)[|a| .. |a| + |b|] == b
  {
  }

  /** A slice of a slice is a slice. */
  lemma SliceOfSlice<T>(m: seq<T>, x: nat, y: nat, a: nat, b: nat)
    requires x <= y <= |m| && a <= b <= y - x
    ensures m[x..y][a..b] == m[x + a .. x + b]
  {
    var lhs := m[x..y][a..b];
    forall q | 0 <= q < b - a
      ensures lhs[q] == m[x + a + q]
    {
    }
  }

  /** A long written at offset `a` of a block that sits at offset `x` of
      `m` is read back at offset `x + a`. */
  lemma LongInBlock(m: seq<byte>, x: nat, block: seq<byte>, a: nat, b: nat, at: nat, v: Int64)
    requires x + |block| <= |m| && m[x .. x + |block|] == block
    requires b == a + LongBytes <= |block| && block[a..b] == PutLong(v)
    requires at == x + a
    ensures at + LongBytes <= |m| && LongAt(m, at) == v
  {
    SliceOfSlice(m, x, x + |block|, a, b);
  }

  /** Block `i` of `k > i` blocks of width `w` starts at `w i`. */
  lemma {:induction false} ChunksAt<T>(f: nat -> seq<T>, w: nat, k: nat, i: nat)
    requires forall j: nat :: |f(j)| == w
    requires i < k
    ensures w * i + w <= |Chunks(f, k)|
    ensures Chunks(f, k)[w * i .. w * i + w] == f(i)
  {
    var prev := Chunks(f, k - 1);
    ChunksLength(f, w, k - 1);
    WidthSteps(w, i, k - 1);
    if i < k - 1 {
      ChunksAt(f, w, k - 1, i);
      SliceLeft(prev, f(k - 1), w * i, w * i + w);
    } else {
      SliceRight(prev, f(k - 1));
    }
  }

  /** The offsets of consecutive blocks of width `w`. */
  lemma WidthSteps(w: nat, i: nat, k: nat)
    requires i <= k
    ensures w * i + w == w * (i + 1)
    ensures i < k ==> w * (i + 1) <= w * k
    ensures i == k ==> w * i == w * k
  {
  }

  /** Row `i` sits at offset `45 i` of the first `k > i` rows. */
  lemma RowsAt(s: Int64, c0: int, k: nat, i: nat, env: Environment)
    requires i < k
    ensures 45 * i + 45 <= |Rows(s, c0, k, env)|
    ensures Rows(s, c0, k, env)[45 * i .. 45 * i + 45] == Row(s, c0, i, env)
  {
    ChunksAt((j: nat) => Row(s, c0, j, env), 45, k, i);
  }

  /** Reading `m` sits at offset `8 m` of the first `j > m` readings. */
  lemma ReadingsAt(c0: int, i: nat, j: nat, m: nat)
    requires m < j
    ensures 8 * m + 8 <= |Readings(c0, i, j)|
    ensures Readings(c0, i, j)[8 * m .. 8 * m + 8] == PutLong(WrapInt64(ClockAt(c0, i, m)))
  {
    ChunksAt((q: nat) => PutLong(WrapInt64(ClockAt(c0, i, q))), 8, j, m);
  }

  /** The fixed fields of row `i`: the second `s + i`, the packet type
      alternating short/long from a short first row, and that type's size. */
  lemma RowHeadFields(s: Int64, c0: int, i: nat, env: Environment)
    ensures Row(s, c0, i, env)[0..8] == PutLong(WrapInt64(s + i))
    ensures Row(s, c0, i, env)[8] == (if i % 2 == 0 then ShortType else LongType)
    ensures ReadInt(Row(s, c0, i, env)[9..13]) == (if i % 2 == 0 then env.shortSize else env.longSize)
  {
    var long := PutLong(WrapInt64(s + i));
    var size := PutInt(PacketSize(i, env));
    var head := long + [TypeByte(i)] + size;
    var readings := Readings(c0, i, TimestampsPerRow);
    SliceLeft(head, readings, 0, 8);
    SliceLeft(long + [TypeByte(i)], size, 0, 8);
    SliceLeft(long, [TypeByte(i)], 0, 8);
    SliceLeft(head, readings, 9, 13);
    SliceRight(long + [TypeByte(i)], size);
  }

  /** Reading `j` of row `i` sits 13 + 8 j bytes into the row. */
  lemma RowReadingAt(s: Int64, c0: int, i: nat, j: nat, env: Environment)
    requires j < TimestampsPerRow
    ensures Row(s, c0, i, env)[13 + 8 * j .. 21 + 8 * j] == PutLong(WrapInt64(ClockAt(c0, i, j)))
  {
    var head := RowHead(s, i, env);
    var readings := Readings(c0, i, TimestampsPerRow);
    ReadingsAt(c0, i, TimestampsPerRow, j);
    SliceRight(head, readings);
    SliceOfSlice(head + readings, 13, 45, 8 * j, 8 * j + 8);
  }

  /** While the clock stays in the `long` range, reading `j` of row `i` is
      written unwrapped: row `i` holds the readings `c0 + i` seconds, plus
      5, 10 and 15 ms. */
  lemma RowReadingValue(s: Int64, c0: int, i: nat, j: nat, env: Environment)
    requires 0 <= c0 < 86_400_000_000_000 && 45 * (i + 1) < TwoTo31 && j < TimestampsPerRow
    ensures -TwoTo63 <= c0 + i * 1_000_000_000 + j * 5_000_000 < TwoTo63
    ensures ReadLong(Row(s, c0, i, env)[13 + 8 * j .. 21 + 8 * j]) == c0 + i * 1_000_000_000 + j * 5_000_000
  {
    ClockSteps(c0, i, j);
    RowReadingAt(s, c0, i, j, env);
  }

  // ---------------------------------------------------------------------
  // The message

  /** While `45 n` fits in an `int`, `n > 0` rows make a message of exactly
      `45 n` bytes. */
  lemma MessageFits(s: Int64, n: Int32, env: Environment)
    requires 0 < n && 45 * n < TwoTo31
    ensures Message(s, n, env) == Success(Rows(s, FirstNanosOfCurrent(s), n, env))
    ensures |Message(s, n, env).value| == 45 * n
  {
    assert Capacity(n) == 45 * n;
  }

  /** No rows, no bytes. */
  lemma MessageOfNoRows(s: Int64, env: Environment)
    ensures Message(s, 0, env) == Success([])
  {
    assert Capacity(0) == 0;
  }

  /** A negative count whose product fits in an `int` is refused by `allocate`. */
  lemma MessageNegative(s: Int64, n: Int32, env: Environment)
    requires -TwoTo31 <= 45 * n < 0
    ensures Message(s, n, env) == Failure(IllegalCapacity(45 * n))
  {
    assert Capacity(n) == 45 * n;
  }

  /** A count whose product leaves the `int` range never yields its rows:
      the wrapped capacity is negative or too small for them. */
  lemma MessageTooLarge(s: Int64, n: Int32, env: Environment)
    requires 45 * n >= TwoTo31
    ensures Message(s, n, env).Failure?
  {
  }

  /** Row `i` of the first `k` rows opens with second `s + i`. */
  lemma RowsKey(s: Int64, c0: int, k: nat, env: Environment, i: nat)
    requires i < k
    ensures 45 * i + 45 <= |Rows(s, c0, k, env)|
    ensures LongAt(Rows(s, c0, k, env), 45 * i) == WrapInt64(s + i)
  {
    RowsAt(s, c0, k, i, env);
    RowHeadFields(s, c0, i, env);
    LongInBlock(Rows(s, c0, k, env), 45 * i, Row(s, c0, i, env), 0, 8, 45 * i, WrapInt64(s + i));
  }

  /** Row `i` of an `n`-row message is the `i`-th 45-byte record: the
      fields `RowHeadFields` and `RowReadingValue` describe are the record's. */
  lemma MessageRow(s: Int64, n: Int32, env: Environment, i: nat)
    requires 0 < n && 45 * n < TwoTo31 && i < n
    ensures 45 * i + 45 <= |Message(s, n, env).value|
    ensures Message(s, n, env).value[45 * i .. 45 * i + 45] == Row(s, FirstNanosOfCurrent(s), i, env)
  {
    MessageFits(s, n, env);
    RowsAt(s, FirstNanosOfCurrent(s), n, i, env);
  }

  /** A message of `n` whole records whose keys are the `n` seconds from
      `s` reads back as those seconds. */
  lemma TimestampsOfRecords(p: Report, s: Int64, n: nat)
    requires |p.message| == 45 * n
    requires forall i :: 0 <= i < n ==> LongAt(p.message, 45 * i) == WrapInt64(s + i)
    ensures ReportTimestamps(p) == Success(Seconds(s, n))
  {
    assert |p.message| % RecordSize == 0;
    assert (|p.message| + RecordSize - 1) / RecordSize == n;
    var r := ReportTimestamps(p).value;
    assert r == Seconds(s, n);
  }

  /** `getReportTimestamps` reads a generated message back as the `n`
      consecutive seconds from `s`, and its key is `s`. */
  lemma ReadsGeneratedSeconds(p: Report, s: Int64, n: Int32, env: Environment)
    requires 0 < n && 45 * n < TwoTo31
    requires Message(s, n, env) == Success(p.message)
    ensures ReportTimestamps(p) == Success(Seconds(s, n))
    ensures FirstReportTimestamp(p) == s
  {
    MessageFits(s, n, env);
    var c0 := FirstNanosOfCurrent(s);
    forall i | 0 <= i < n
      ensures LongAt(p.message, 45 * i) == WrapInt64(s + i)
    {
      RowsKey(s, c0, n, env, i);
    }
    TimestampsOfRecords(p, s, n);
    RowsKey(s, c0, n, env, 0);
    FirstKey(p);
  }

  /** The key of a report is the long at offset 0 of its message. */
  lemma FirstKey(p: Report)
    requires |p.message| >= LongBytes
    ensures FirstReportTimestamp(p) == LongAt(p.message, 0)
  {
    assert p.message[..LongBytes] == p.message[0..LongBytes];
  }

  // ---------------------------------------------------------------------
  // The report

  /** A build whose rows fit: both addresses on port 4500, the builder's
      ids, a message read back as the consecutive seconds from the initial
      unix timestamp, an initial timestamp 15 s after the nanosecond of the
      UTC day of the first one, a reception 5 s later, and the message signed
      with the key pair whose public half the report carries. */
  lemma BuildReport(g: Generator, env: Environment)
    requires 0 < g.reportsPerPacket && 45 * g.reportsPerPacket < TwoTo31
    ensures Build(g, env).Success?
    ensures var (p, next) := Build(g, env).value;
      && p.from == SocketAddress(g.from, 4500) && p.to == SocketAddress(g.to, 4500)
      && p.userId == g.userId && p.installationId == g.installationId
      && ReportTimestamps(p) == Success(Seconds(g.initialTimestamp, g.reportsPerPacket))
      && FirstReportTimestamp(p) == g.initialTimestamp
      && p.initialTimestamp == FirstNanosOfNext(FirstReportTimestamp(p))
      && p.receptionTimestamp == p.initialTimestamp + 5_000_000_000
      && next.keyPair.Some?
      && p.publicKey == next.keyPair.value.publicKey
      && p.signature == env.sign(p.message, next.keyPair.value)
  {
    MessageFits(g.initialTimestamp, g.reportsPerPacket, env);
    var (p, next) := Build(g, env).value;
    ReadsGeneratedSeconds(p, g.initialTimestamp, g.reportsPerPacket, env);
  }

  /** The builder keeps the key pair of its first build, so building again
      gives the same report; a builder that had a key pair is unchanged. The
      report is the same only because `sign` is a function of its inputs
      here: a randomized signature scheme would give another signature. */
  lemma BuildAgain(g: Generator, env: Environment)
    requires Build(g, env).Success?
    ensures var (p, next) := Build(g, env).value;
      && Build(next, env) == Success((p, next))
      && (g.keyPair.Some? ==> next == g)
      && (g.keyPair.None? ==> next.keyPair == Some(env.freshKeyPair))
  {
  }

  /** The default report (`createNewPacket`): sixty one-second records from
      1530000000, which is 28800 s into its UTC day, so the report's initial
      timestamp is 28815 s of nanoseconds. */
  lemma DefaultPacket(userId: Int64, installationId: Int64, env: Environment)
    ensures CreateNewPacket(userId, installationId, env).Success?
    ensures var p := CreateNewPacket(userId, installationId, env).value;
      && p.from.host == "192.168.1.1" && p.to.host == "10.0.0.1"
      && p.userId == userId && p.installationId == installationId
      && |p.message| == 2700
      && ReportTimestamps(p) == Success(Seconds(FirstReportTimestamp(p), 60))
      && FirstReportTimestamp(p) == 1530000000
      && p.initialTimestamp == 28_815_000_000_000
  {
    var g := Defaults().(userId := userId, installationId := installationId);
    BuildReport(g, env);
    MessageFits(g.initialTimestamp, g.reportsPerPacket, env);
    DefaultDayOffset();
  }

  /** 1530000000 is 8 h into its UTC day (2018-06-26). */
  lemma DefaultDayOffset()
    ensures FirstNanosOfCurrent(1530000000) == 28_800_000_000_000
  {
    assert StartOfDay(1530000000) == 1529971200 by {
      assert SecondsPerDay == 86400;
      assert 1530000000 / 86400 == 17708;
    }
    assert SecondToNano == 1_000_000_000;
  }
}
