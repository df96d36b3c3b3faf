/** `AbstractInstallationMeasurements`: the batch-extraction engine shared by
    every store. The abstract class and its two subclasses become a tagged
    union; the engine reaches the store only through `SampleStartTimes`, `Get`
    and `Delete`. */
module Extraction {
  import opened Wrappers
  import opened Bytes
  import opened Decimal
  import opened Packets
  import opened PacketSerDe
  import InMemoryStore
  import FilesystemStore

  /** Observations a batch needs before it may ship. */
  const MinRequiredReports: nat := 1024 + 60
  /** Declared next to the others; the engine never reads it. */
  const MaxReportsUsedAtOnce: nat := 1200
  /** Largest tolerated distance between consecutive reports, in seconds. */
  const MaxAcceptedReportGap: nat := 5 * 60
  /** Declared next to the others; the engine never reads it. */
  const MaxMeasuresPerPacket: nat := 60
  const NanosPerSecond: nat := 1000000000
  /** `MAX_ACCEPTED_REPORT_GAP * 1000000000L`, the starting value of `diff`. */
  const MaxGapNanos: nat := MaxAcceptedReportGap * NanosPerSecond

  datatype Store =
    | InMemory(mem: InMemoryStore.Store)
    | Filesystem(fs: FilesystemStore.Store)

  function InstallationId(st: Store): Int64 {
    match st
    case InMemory(mem) => mem.installationId
    case Filesystem(fs) => fs.installationId
  }

  /** `sampleStartTimes()`: the keys, in the store's own order. */
  function SampleStartTimes(st: Store): seq<Int64> {
    match st
    case InMemory(mem) => InMemoryStore.SampleStartTimes(mem)
    case Filesystem(fs) => fs.samples
  }

  /** `get(range)`: only the filesystem store can fail. */
  function Get(st: Store, range: seq<Int64>): (r: Result<seq<Report>, StoreError>)
    ensures st.InMemory? ==> r.Success?
  {
    match st
    case InMemory(mem) => Success(InMemoryStore.Get(mem, range))
    case Filesystem(fs) => FilesystemStore.Get(fs, range)
  }

  /** `delete(range)`: the keys left are exactly the old keys outside `range`. */
  function Delete(st: Store, range: seq<Int64>): (r: Store)
    ensures r.InMemory? == st.InMemory?
    ensures InstallationId(r) == InstallationId(st)
    ensures |SampleStartTimes(r)| <= |SampleStartTimes(st)|
    ensures forall t :: t in SampleStartTimes(r) ==> t in SampleStartTimes(st) && t !in range
    ensures forall t :: t in SampleStartTimes(st) && t !in range ==> t in SampleStartTimes(r)
  {
    match st
    case InMemory(mem) =>
      var r := InMemoryStore.Delete(mem, range);
      InMemoryStore.KeysOfPackets(mem);
      InMemoryStore.KeysOfPackets(r);
      InMemory(r)
    case Filesystem(fs) => Filesystem(FilesystemStore.Delete(fs, range))
  }

  /** `observationsIn`: whole 45-byte records in the message. */
  function ObservationsIn(p: Report): nat {
    |p.message| / 45
  }

  /** For a message of whole records, `observationsIn` counts the timestamps
      `getReportTimestamps` reads, the first of which is the report's key. */
  lemma ObservationsAreTimestamps(p: Report)
    requires |p.message| % 45 == 0
    ensures ReportTimestamps(p).Success?
    ensures |ReportTimestamps(p).value| == ObservationsIn(p)
    ensures |p.message| > 0 ==> ReportTimestamps(p).value[0] == FirstReportTimestamp(p)
  {
    if |p.message| > 0 {
      FirstOfReportTimestamps(p);
    }
  }

  /** The sum of `observationsIn` over the first `k` reports: the stream sum
      of the loop, cut short by `limit(k)` in the gap test. */
  function TotalTo(ps: seq<Report>, k: nat): nat
    requires k <= |ps|
  {
    if k == 0 then 0 else TotalTo(ps, k - 1) + ObservationsIn(ps[k - 1])
  }

  /** The sum of `observationsIn` over a list of reports. */
  function Total(ps: seq<Report>): nat {
    TotalTo(ps, |ps|)
  }

  /** The sum over the first `k` reports depends on those reports only. */
  lemma {:induction false} TotalToAgrees(a: seq<Report>, b: seq<Report>, k: nat)
    requires k <= |a| && k <= |b|
    requires forall j :: 0 <= j < k ==> a[j] == b[j]
    ensures TotalTo(a, k) == TotalTo(b, k)
  {
    if k > 0 {
      TotalToAgrees(a, b, k - 1);
    }
  }

  /** The sum over a prefix taken as a list of its own. */
  lemma TotalOfPrefix(v: seq<Report>, k: nat)
    requires k <= |v|
    ensures Total(v[..k]) == TotalTo(v, k)
  {
    TotalToAgrees(v[..k], v, k);
  }

  /** The `long` difference between the initial timestamps of reports `i + 1`
      and `i`, wrapping like Java's subtraction. */
  function Gap(p: seq<Report>, i: nat): Int64
    requires i + 1 < |p|
  {
    SubInt64(p[i + 1].initialTimestamp, p[i].initialTimestamp)
  }

  /** The gaps between consecutive reports, in order. */
  function Gaps(p: seq<Report>): (g: seq<Int64>)
    ensures |g| == if |p| == 0 then 0 else |p| - 1
  {
    seq(if |p| == 0 then 0 else |p| - 1, i requires 0 <= i < |p| - 1 => Gap(p, i))
  }

  /** Position `c` holds the first of the largest gaps, and that gap exceeds
      the tolerance. */
  predicate IsGapCut(g: seq<int>, c: nat) {
    && c < |g|
    && g[c] > MaxGapNanos
    && (forall i :: 0 <= i < c ==> g[i] < g[c])
    && (forall i :: c < i < |g| ==> g[i] <= g[c])
  }

  /** `find_gap_cut`: the position of the first of the largest gaps, when
      that gap exceeds five minutes (see `GapCutSpec`). */
  function GapCut(p: seq<Report>): (cut: Option<nat>)
    ensures cut.Some? ==> cut.value + 1 < |p|
  {
    var g := Gaps(p);
    CutAmong(g, |g|)
  }

  /** None when no gap exceeds five minutes; otherwise the first position of
      the largest gap. */
  lemma GapCutSpec(p: seq<Report>)
    ensures GapCut(p).None? <==> forall i :: 0 <= i < |Gaps(p)| ==> Gaps(p)[i] <= MaxGapNanos
    ensures GapCut(p).Some? ==> IsGapCut(Gaps(p), GapCut(p).value)
  {
    var g := Gaps(p);
    CutAmongSpec(g, |g|);
    assert g[..|g|] == g;
  }

  /** The loop of `find_gap_cut` after the gaps at positions below `n`: the
      running cut moves only on a gap strictly larger than `diff`, which is
      the tolerance until a cut is found and the gap at the cut after. */
  function CutAmong(g: seq<int>, n: nat): (cut: Option<nat>)
    requires n <= |g|
    ensures cut.Some? ==> cut.value < n
  {
    if n == 0 then None
    else
      var best := CutAmong(g, n - 1);
      var diff := if best.None? then MaxGapNanos else g[best.value];
      if g[n - 1] > diff then Some(n - 1) else best
  }

  /** After the first `n` gaps the running cut is the first of the largest,
      and there is none while every gap is within the tolerance. */
  lemma {:induction false} CutAmongSpec(g: seq<int>, n: nat)
    requires n <= |g|
    ensures CutAmong(g, n).None? <==> forall i :: 0 <= i < n ==> g[i] <= MaxGapNanos
    ensures CutAmong(g, n).Some? ==> IsGapCut(g[..n], CutAmong(g, n).value)
  {
    if n > 0 {
      CutAmongSpec(g, n - 1);
    }
  }

  /** How one pass of `checkAndExtractOnce` ends. */
  datatype Attempt =
    | Drop(keys: seq<Int64>)                               // delete these keys, no batch
    | Ready(toSubmit: seq<Report>, toDelete: seq<Int64>)   // a batch
    | Exhausted                                            // not enough yet, nothing changes

  /** The `while` loop of `checkAndExtractOnce`. `keys` is the copy of
      `sampleStartTimes()` taken before the loop and `processable` holds the
      reports fetched so far, one per key taken. */
  function Scan(st: Store, keys: seq<Int64>, processable: seq<Report>): (r: Result<Attempt, StoreError>)
    requires |processable| <= |keys|
    ensures r.Success? && r.value.Drop? ==>
      1 <= |r.value.keys| <= |keys| && r.value.keys == keys[..|r.value.keys|]
    ensures r.Success? && r.value.Ready? ==>
      && MinRequiredReports <= Total(r.value.toSubmit)
      && 1 <= |r.value.toSubmit| <= |keys|
      && r.value.toDelete == keys[..|r.value.toSubmit| / 2]
    decreases |keys| - |processable|
  {
    if Total(processable) >= MinRequiredReports || |processable| == |keys| then Success(Exhausted)
    else
      var i := |processable|;
      match Get(st, [keys[i]])
      case Failure(e) => Failure(e)
      case Success(fetched) =>
        if |fetched| == 0 then Failure(EmptyFetch(keys[i]))
        else if i > 0 && Host(processable[0]) != Host(fetched[0]) then Success(Drop(keys[..i + 1]))
        else
          var grown := processable + [fetched[0]];
          if Total(grown) <= MinRequiredReports then Scan(st, keys, grown)
          else Success(Cut(keys, grown))
  }

  /** The end of the loop body once `grown` holds more than the minimum:
      drop up to a gap when too little precedes it, otherwise build the batch
      from the reports before the gap (or from all of them). */
  function Cut(keys: seq<Int64>, grown: seq<Report>): (r: Attempt)
    requires 1 <= |grown| <= |keys| && MinRequiredReports < Total(grown)
    ensures r.Drop? ==> 1 <= |r.keys| < |grown| && r.keys == keys[..|r.keys|]
    ensures r.Ready? ==>
      && MinRequiredReports <= Total(r.toSubmit)
      && 1 <= |r.toSubmit| <= |grown| && r.toSubmit == grown[..|r.toSubmit|]
      && r.toDelete == keys[..|r.toSubmit| / 2]
    ensures !r.Exhausted?
  {
    match GapCut(grown)
    case Some(c) =>
      if TotalTo(grown, c) < MinRequiredReports then Drop(keys[..c + 1])
      else
        TotalOfPrefix(grown, c + 1);
        Ready(grown[..c + 1], keys[..(c + 1) / 2])
    case None =>
      assert grown[..|grown|] == grown;
      Ready(grown, keys[..|grown| / 2])
  }

  /** The `SubmittablePacketSet` handed to the sender. `id` is the
      installation id in decimal; `toDelete` is the retire set that
      `onSubmitSuccess` deletes. */
  datatype Batch = Batch(id: string, toSubmit: seq<Report>, toDelete: seq<Int64>)

  /** `checkAndExtractOnce`: a drop deletes the dropped keys and yields no
      batch; a batch leaves the store as it is. */
  function CheckAndExtractOnce(st: Store): (r: Result<(Store, Option<Batch>), StoreError>)
    ensures r.Success? ==> InstallationId(r.value.0) == InstallationId(st)
    ensures r.Success? && r.value.1.Some? ==> r.value.0 == st
    ensures r.Success? && r.value.1.Some? ==>
      && ParseLong(r.value.1.value.id) == Success(InstallationId(st))
      && 1 <= |r.value.1.value.toSubmit| <= |SampleStartTimes(st)|
      && r.value.1.value.toDelete == SampleStartTimes(st)[..|r.value.1.value.toSubmit| / 2]
    ensures r.Success? && r.value.1.None? ==>
      r.value.0 == st || |SampleStartTimes(r.value.0)| < |SampleStartTimes(st)|
    ensures r.Success? ==> Narrowed(st, r.value.0)
  {
    var keys := SampleStartTimes(st);
    match Scan(st, keys, [])
    case Failure(e) => Failure(e)
    case Success(Drop(dropped)) =>
      var r := Delete(st, dropped);
      assert keys[0] in dropped && keys[0] in keys && keys[0] !in SampleStartTimes(r);
      DeleteShrinks(st, dropped, keys[0]);
      Success((r, None))
    case Success(Ready(toSubmit, toDelete)) =>
      ParseLongFormat(InstallationId(st));
      Success((st, Some(Batch(Format(InstallationId(st)), toSubmit, toDelete))))
    case Success(Exhausted) => Success((st, None))
  }

  /** Deleting a present key removes at least one key. */
  lemma DeleteShrinks(st: Store, range: seq<Int64>, t: Int64)
    requires t in SampleStartTimes(st) && t in range
    ensures |SampleStartTimes(Delete(st, range))| < |SampleStartTimes(st)|
  {
    match st
    case InMemory(mem) =>
      InMemoryStore.DeleteRemovesPresent(mem, range, t);
    case Filesystem(fs) =>
      FilesystemStore.RemoveAllRemovesPresent(fs.samples, range, t);
  }

  /** `after` is `st` with some keys deleted and none added. */
  predicate Narrowed(st: Store, after: Store) {
    && InstallationId(after) == InstallationId(st)
    && |SampleStartTimes(after)| <= |SampleStartTimes(st)|
    && forall t :: t in SampleStartTimes(after) ==> t in SampleStartTimes(st)
  }

  /** An exception part-way through `checkAndExtract`: the store as the
      failing pass found it, with the deletions of the earlier passes already
      made, and the error. A pass makes no change before its read fails. */
  datatype Interrupted = Interrupted(store: Store, error: StoreError)

  /** `checkAndExtract`: repeats `checkAndExtractOnce` while it keeps shrinking
      the store, and stops at the first batch or at the first failing pass. */
  function CheckAndExtract(st: Store): (r: Result<(Store, Option<Batch>), Interrupted>)
    ensures r.Success? ==> Narrowed(st, r.value.0)
    ensures r.Success? && r.value.1.None? ==> CheckAndExtractOnce(r.value.0) == Success((r.value.0, None))
    ensures r.Success? && r.value.1.Some? ==> CheckAndExtractOnce(r.value.0) == Success(r.value)
    ensures r.Failure? ==> Narrowed(st, r.error.store)
    ensures r.Failure? ==> CheckAndExtractOnce(r.error.store) == Failure(r.error.error)
    decreases |SampleStartTimes(st)|
  {
    match CheckAndExtractOnce(st)
    case Failure(e) => Failure(Interrupted(st, e))
    case Success((next, extracted)) =>
      if extracted.Some? then Success((next, extracted))
      else if |SampleStartTimes(next)| == |SampleStartTimes(st)| then
        assert next == st;
        Success((next, None))
      else CheckAndExtract(next)
  }

  /** `onSubmitSuccess` of a batch extracted from `st`: delete the retire set,
      then extract again. Whether the extraction succeeds or is interrupted,
      no retired key is left in the store. */
  function OnSubmitSuccess(st: Store, b: Batch): (r: Result<(Store, Option<Batch>), Interrupted>)
    ensures r.Success? ==> Narrowed(Delete(st, b.toDelete), r.value.0)
    ensures r.Success? ==> forall t :: t in b.toDelete ==> t !in SampleStartTimes(r.value.0)
    ensures r.Failure? ==> Narrowed(Delete(st, b.toDelete), r.error.store)
    ensures r.Failure? ==> forall t :: t in b.toDelete ==> t !in SampleStartTimes(r.error.store)
  {
    CheckAndExtract(Delete(st, b.toDelete))
  }
}
