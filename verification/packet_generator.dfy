/** The test encoder `PacketGenerator`: it builds reports whose message holds
    `reportsPerPacket` 45-byte rows, one per second, starting at a unix
    timestamp. Key generation, signing and the packet-type sizes come from
    the tix-time-core library and are parameters here. */
module PacketGenerator {
  import opened Wrappers
  import opened Bytes
  import opened Packets
  import opened PacketSerDe

  const DefaultFirstUnixTimestamp: Int64 := 1530000000
  const SecondToNano: nat := 1000 * 1000 * 1000
  const MilliToNano: nat := 1000 * 1000
  const SecondsPerDay: nat := 86400
  /** The port both addresses of a generated report carry. */
  const ReportPort: int := 4500
  /** A row: unix timestamp (8), packet type (1), packet size (4) and four
      clock readings (8 each). */
  const TimestampsPerRow: nat := 4
  const RowSize: nat := 8 + 1 + 4 + 8 * TimestampsPerRow
  /** The clock advances 5 ms per reading and one second per row. */
  const ReadingStep: nat := 5 * MilliToNano
  const ShortType: byte := 83   // 'S'
  const LongType: byte := 76    // 'L'

  datatype KeyPair = KeyPair(publicKey: seq<byte>, privateKey: seq<byte>)

  /** What the generator takes from tix-time-core: the sizes of the short and
      long packet types, the key pair a build creates when none was given,
      and the signature of a message. */
  datatype Environment = Environment(
    shortSize: Int32,
    longSize: Int32,
    freshKeyPair: KeyPair,
    sign: (seq<byte>, KeyPair) -> seq<byte>)

  /** The builder's fields; the `with...` methods are field updates. */
  datatype Generator = Generator(
    from: string,
    to: string,
    initialTimestamp: Int64,
    userId: Int64,
    installationId: Int64,
    keyPair: Option<KeyPair>,
    reportsPerPacket: Int32)

  /** `defaults()`. */
  function Defaults(): Generator {
    Generator("192.168.1.1", "10.0.0.1", DefaultFirstUnixTimestamp, 1, 1, None, 60)
  }

  /** The epoch second of the UTC midnight starting the day of `s`, as
      `LocalDateTime.ofEpochSecond(s, 0, UTC).toLocalDate().atStartOfDay()`
      gives it: the day number rounds towards minus infinity. */
  function StartOfDay(s: int): int {
    (s / SecondsPerDay) * SecondsPerDay
  }

  /** `firstNanosOfCurrent`: the nanoseconds since UTC midnight at second
      `s`, less than a day of them (see `NanosOfDay`). */
  function FirstNanosOfCurrent(s: Int64): (r: Int64)
    ensures 0 <= r < 86_400_000_000_000
  {
    (s - StartOfDay(s)) * SecondToNano
  }

  /** `firstNanosOfCurrent` is a whole number of seconds, fewer than a day,
      congruent to `s` modulo a day: the second of the UTC day of `s`. */
  lemma NanosOfDay(s: Int64)
    ensures var r := FirstNanosOfCurrent(s);
      && r % SecondToNano == 0
      && 0 <= r / SecondToNano < SecondsPerDay
      && (s - r / SecondToNano) % SecondsPerDay == 0
  {
  }

  /** `firstNanosOfNext`: fifteen seconds after `firstNanosOfCurrent`. */
  function FirstNanosOfNext(s: Int64): (r: Int64)
    ensures 15_000_000_000 <= r < 86_415_000_000_000
  {
    FirstNanosOfCurrent(s) + 15 * SecondToNano
  }

  /** Within one UTC day, seconds `d` apart are `d` seconds of nanos apart. */
  lemma SameDayNanos(s: Int64, t: Int64)
    requires s / SecondsPerDay == t / SecondsPerDay
    ensures FirstNanosOfNext(t) - FirstNanosOfNext(s) == (t - s) * SecondToNano
  {
  }

  /** Across a UTC midnight, less than a day later is earlier in nanos. */
  lemma NextDayNanos(s: Int64, t: Int64)
    requires s / SecondsPerDay < t / SecondsPerDay && t - s < SecondsPerDay
    ensures FirstNanosOfNext(t) < FirstNanosOfNext(s)
  {
    assert t / SecondsPerDay == s / SecondsPerDay + 1 by {
      assert (s + SecondsPerDay) / SecondsPerDay == s / SecondsPerDay + 1;
    }
  }

  // ---------------------------------------------------------------------
  // The message

  /** The packet-type byte of row `i`: short on even rows, long on odd ones. */
  function TypeByte(i: nat): byte {
    if i % 2 == 0 then ShortType else LongType
  }

  function PacketSize(i: nat, env: Environment): Int32 {
    if i % 2 == 0 then env.shortSize else env.longSize
  }

  /** Reading `j` of row `i` when the clock starts at `c0`: one second per
      row and 5 ms per reading (`SecondToNano` and `ReadingStep`). */
  function ClockAt(c0: int, i: nat, j: nat): int {
    c0 + i * 1_000_000_000 + j * 5_000_000
  }

  /** How the running clock of `generateMessage` steps between readings and
      rows, and that it stays far inside the `long` range while the rows fit
      in an `int`-sized buffer. */
  lemma ClockSteps(c0: int, i: nat, j: nat)
    requires 0 <= c0 < 86_400_000_000_000 && 45 * (i + 1) < TwoTo31 && j < TimestampsPerRow
    ensures ClockAt(c0, i, j + 1) == ClockAt(c0, i, j) + ReadingStep
    ensures ClockAt(c0, i, TimestampsPerRow) + (1000 - 5 * TimestampsPerRow) * MilliToNano == ClockAt(c0, i + 1, 0)
    ensures 0 <= ClockAt(c0, i, j) && ClockAt(c0, i + 1, 0) < TwoTo63
  {
  }

  /** The first `j` clock readings of row `i`. */
  function Readings(c0: int, i: nat, j: nat): (bs: seq<byte>)
    ensures |bs| == 8 * j
  {
    ChunksLength((m: nat) => PutLong(WrapInt64(ClockAt(c0, i, m))), 8, j);
    Chunks((m: nat) => PutLong(WrapInt64(ClockAt(c0, i, m))), j)
  }

  /** Row `i` of the message for unix timestamp `s`, whose clock starts at `c0`. */
  function Row(s: Int64, c0: int, i: nat, env: Environment): (row: seq<byte>)
    ensures |row| == 45
  {
    RowHead(s, i, env) + Readings(c0, i, TimestampsPerRow)
  }

  /** The unix timestamp, packet type and packet size that open row `i`. */
  function RowHead(s: Int64, i: nat, env: Environment): (head: seq<byte>)
    ensures |head| == 13
  {
    PutLong(WrapInt64(s + i)) + [TypeByte(i)] + PutInt(PacketSize(i, env))
  }

  /** The first `k` rows. */
  function Rows(s: Int64, c0: int, k: nat, env: Environment): (bs: seq<byte>)
    ensures |bs| == 45 * k
  {
    ChunksLength((i: nat) => Row(s, c0, i, env), 45, k);
    Chunks((i: nat) => Row(s, c0, i, env), k)
  }

  /** The blocks `f(0)`, ..., `f(k - 1)` one after the other. */
  function Chunks<T>(f: nat -> seq<T>, k: nat): seq<T> {
    if k == 0 then [] else Chunks(f, k - 1) + f(k - 1)
  }

  /** Blocks of width `w` make `k w` elements. */
  lemma {:induction false} ChunksLength<T>(f: nat -> seq<T>, w: nat, k: nat)
    requires forall j: nat :: |f(j)| == w
    ensures |Chunks(f, k)| == w * k
  {
    if k > 0 {
      ChunksLength(f, w, k - 1);
    }
  }

  /** How many rows `generateMessage(s, n)` writes when they all fit. */
  function RowCount(n: Int32): nat {
    if n > 0 then n else 0
  }

  datatype GeneratorError =
    | IllegalCapacity(capacity: Int32)   // `ByteBuffer.allocate` of a negative size
    | BufferOverflow                     // a `put` past the buffer's capacity

  /** The buffer size `generateMessage` allocates: an `int` product. */
  function Capacity(n: Int32): Int32 {
    WrapInt32(n * 45)
  }

  /** What `generateMessage(s, n)` returns, row by row. The capacity is an
      `int` product and may wrap: a negative one is refused by `allocate`, one
      smaller than the rows runs out during the loop, and when `n <= 0` the
      loop writes nothing and the zeroed buffer is returned. */
  function Message(s: Int64, n: Int32, env: Environment): Result<seq<byte>, GeneratorError> {
    var capacity := Capacity(n);
    if capacity < 0 then Failure(IllegalCapacity(capacity))
    else if n <= 0 then Success(Zeros(capacity))
    else if capacity < n * 45 then Failure(BufferOverflow)
    else Success(Rows(s, FirstNanosOfCurrent(s), n, env))
  }

  /** A row is one record of the payload the reader walks: 45 bytes, the
      literal the arithmetic below uses. */
  lemma RowIsRecord()
    ensures RowSize == RecordSize == 45
  {
  }

  /** A non-negative `int` product only loses turns of 2^32 when it wraps. */
  lemma WrapBelow(x: int)
    requires x >= 0
    ensures WrapInt32(x) <= x
  {
  }

  /** `generateMessage` as written: a running clock, a row per iteration,
      each `put` into a buffer of fixed capacity. A row that does not fit
      raises the overflow at one of its `put`s. */
  method GenerateMessage(s: Int64, n: Int32, env: Environment) returns (r: Result<seq<byte>, GeneratorError>)
    ensures r == Message(s, n, env)
  {
    var c0 := FirstNanosOfCurrent(s);
    var capacity := Capacity(n);
    if capacity < 0 {
      return Failure(IllegalCapacity(capacity));
    }
    var filled := FillRows(s, c0, n, capacity, env);
    assert RowCount(n) == if n > 0 then n else 0;
    if filled.None? {
      OverflowMessage(s, n, env);
      return Failure(BufferOverflow);
    }
    var buffer := filled.value;
    r := Success(buffer + Zeros(capacity - |buffer|));
    if n > 0 {
      FullMessage(s, n, env);
      assert buffer + Zeros(capacity - |buffer|) == buffer;
    } else {
      EmptyMessage(s, n, env);
      assert buffer + Zeros(capacity - |buffer|) == Zeros(capacity);
    }
  }

  /** The row loop of `generateMessage` over a buffer of `capacity` bytes:
      the rows written, or `None` when a row does not fit. */
  method FillRows(s: Int64, c0: Int64, n: Int32, capacity: Int32, env: Environment) returns (filled: Option<seq<byte>>)
    requires 0 <= c0 < 86_400_000_000_000 && 0 <= capacity
    ensures filled.None? <==> capacity < 45 * RowCount(n)
    ensures filled.Some? ==> filled.value == Rows(s, c0, RowCount(n), env)
  {
    var buffer: seq<byte> := [];
    var clock: Int64 := c0;
    var i: nat := 0;
    var count := RowCount(n);
    while i < count
      invariant i <= count
      invariant 45 * i <= capacity
      invariant buffer == Rows(s, c0, i, env)
      invariant clock == ClockAt(c0, i, 0)
    {
      if 45 * i + 45 > capacity {
        return None;
      }
      var row;
      row, clock := PutRow(s, c0, i, clock, env);
      RowsStepped(s, c0, i, env);
      buffer := buffer + row;
      i := i + 1;
    }
    return Some(buffer);
  }

  lemma OverflowMessage(s: Int64, n: Int32, env: Environment)
    requires n > 0 && 0 <= Capacity(n) < n * 45
    ensures Message(s, n, env) == Failure(BufferOverflow)
  {
  }

  lemma FullMessage(s: Int64, n: Int32, env: Environment)
    requires n > 0 && n * 45 <= Capacity(n)
    ensures Capacity(n) == n * 45
    ensures Message(s, n, env) == Success(Rows(s, FirstNanosOfCurrent(s), n, env))
  {
    WrapBelow(n * 45);
  }

  lemma EmptyMessage(s: Int64, n: Int32, env: Environment)
    requires n <= 0 && 0 <= Capacity(n)
    ensures Message(s, n, env) == Success(Zeros(Capacity(n)))
  {
  }

  /** One iteration of the row loop: the row's fixed part, then four clock
      readings 5 ms apart, then the clock moves on to the next second. While
      the rows fit in an `int`-sized buffer the clock stays far inside the
      `long` range, so its additions are exact. */
  method PutRow(s: Int64, c0: Int64, i: nat, clock: Int64, env: Environment) returns (row: seq<byte>, next: Int64)
    requires 0 <= c0 < 86_400_000_000_000 && 45 * (i + 1) < TwoTo31
    requires clock == ClockAt(c0, i, 0)
    ensures row == Row(s, c0, i, env)
    ensures next == ClockAt(c0, i + 1, 0)
  {
    row := RowHead(s, i, env);
    next := clock;
    var j := 0;
    while j < TimestampsPerRow
      invariant 0 <= j <= TimestampsPerRow
      invariant row == RowHead(s, i, env) + Readings(c0, i, j)
      invariant next == ClockAt(c0, i, j)
    {
      ReadingStepped(s, c0, i, j, env);
      row := row + PutLong(next);
      next := next + ReadingStep;
      j := j + 1;
    }
    RowStepped(c0, i);
    next := next + (1000 - 5 * TimestampsPerRow) * MilliToNano;
  }

  /** One reading of the inner loop: appending the clock extends the row by
      the next reading, and the clock moves on by `ReadingStep`. */
  lemma ReadingStepped(s: Int64, c0: int, i: nat, j: nat, env: Environment)
    requires 0 <= c0 < 86_400_000_000_000 && 45 * (i + 1) < TwoTo31 && j < TimestampsPerRow
    ensures 0 <= ClockAt(c0, i, j) < ClockAt(c0, i, j + 1) < TwoTo63
    ensures RowHead(s, i, env) + Readings(c0, i, j) + PutLong(ClockAt(c0, i, j))
      == RowHead(s, i, env) + Readings(c0, i, j + 1)
    ensures ClockAt(c0, i, j) + ReadingStep == ClockAt(c0, i, j + 1)
  {
    ClockSteps(c0, i, j);
  }

  /** The clock's move from the last reading of row `i` to the first of row
      `i + 1`. */
  lemma RowStepped(c0: int, i: nat)
    requires 0 <= c0 < 86_400_000_000_000 && 45 * (i + 1) < TwoTo31
    ensures ClockAt(c0, i, TimestampsPerRow) + (1000 - 5 * TimestampsPerRow) * MilliToNano == ClockAt(c0, i + 1, 0) < TwoTo63
  {
    ClockSteps(c0, i, 0);
  }

  /** One iteration of the row loop appends row `i` to the first `i` rows. */
  lemma RowsStepped(s: Int64, c0: int, i: nat, env: Environment)
    ensures Rows(s, c0, i, env) + Row(s, c0, i, env) == Rows(s, c0, i + 1, env)
  {
  }

  // ---------------------------------------------------------------------
  // The report

  /** `build()`: the message first (its failures end the build before any
      key is chosen), then the key pair, which the builder keeps when it had
      none, then the report with both addresses on port 4500, the initial
      timestamp `firstNanosOfNext` and a reception 5 s later. */
  function Build(g: Generator, env: Environment): (r: Result<(Report, Generator), GeneratorError>)
    ensures r.Success? <==> Message(g.initialTimestamp, g.reportsPerPacket, env).Success?
    ensures r.Success? ==> r.value.1.keyPair.Some? && r.value.1 == g.(keyPair := r.value.1.keyPair)
  {
    match Message(g.initialTimestamp, g.reportsPerPacket, env)
    case Failure(e) => Failure(e)
    case Success(message) =>
      var keyPair := if g.keyPair.Some? then g.keyPair.value else env.freshKeyPair;
      var initial := FirstNanosOfNext(g.initialTimestamp);
      var report := Report(
        SocketAddress(g.from, ReportPort),
        SocketAddress(g.to, ReportPort),
        initial,
        g.userId,
        g.installationId,
        keyPair.publicKey,
        message,
        env.sign(message, keyPair),
        initial + 5000 * MilliToNano);
      Success((report, g.(keyPair := Some(keyPair))))
  }

  /** `createNewPacket`: the default report of one user and installation. */
  function CreateNewPacket(userId: Int64, installationId: Int64, env: Environment): (r: Result<Report, GeneratorError>)
    ensures r.Success? ==> r.value.userId == userId && r.value.installationId == installationId
  {
    match Build(Defaults().(userId := userId, installationId := installationId), env)
    case Failure(e) => Failure(e)
    case Success((report, _)) => Success(report)
  }
}
