/** The shapes the outcome of a pass can take, named so that the theorems
    about `checkAndExtractOnce` and `checkAndExtract` can state them. */
module ExtractionOutcomes {
  import opened Wrappers
  import opened Bytes
  import opened Packets
  import opened Extraction
  import opened ExtractionProofs

  /** What a batch is made of: the shortest prefix of the reports holding
      more than the minimum, all from the first report's address and without
      a gap above five minutes, retiring the first half of its keys. */
  predicate ShapedBatch(v: seq<Report>, keys: seq<Int64>, toSubmit: seq<Report>, toDelete: seq<Int64>) {
    var k := |toSubmit|;
    && 1 <= k <= |v| && k <= |keys| && toSubmit == v[..k] && Reach(v) == Some(k)
    && TotalTo(v, k - 1) < MinRequiredReports < TotalTo(v, k)
    && (forall j :: 0 <= j < k ==> Host(v[j]) == Host(v[0]))
    && (forall i :: 0 <= i < |Gaps(toSubmit)| ==> Gaps(toSubmit)[i] <= MaxGapNanos)
    && toDelete == keys[..k / 2]
  }

  /** Why a drop of the first `n` reports happens: the `n`-th report is the
      first from another address, or a gap too wide follows it with less than
      the minimum before it, within the shortest prefix holding the minimum. */
  predicate DropCause(v: seq<Report>, n: nat) {
    && 1 <= n <= |v|
    && (|| (Host(v[n - 1]) != Host(v[0]) && forall j :: 0 <= j < n - 1 ==> Host(v[j]) == Host(v[0]))
        || (&& Reach(v).Some? && n < Reach(v).value
            && IsGapCut(Gaps(v[..Reach(v).value]), n - 1)
            && TotalTo(v, n - 1) < MinRequiredReports))
  }

  /** `after` is a well-formed store that holds a suffix of the keys of the
      well-formed store `st`, with the same reports under them. */
  predicate Trimmed(st: Store, after: Store) {
    && Wf(st) && Wf(after)
    && |SampleStartTimes(after)| <= |SampleStartTimes(st)|
    && var n := |SampleStartTimes(st)| - |SampleStartTimes(after)|;
    && SampleStartTimes(after) == SampleStartTimes(st)[n..]
    && View(after) == View(st)[n..]
  }
}
