/** The promises of the extraction engine, for well-formed stores: what a
    batch looks like, what a drop removes, when nothing happens, and how
    `checkAndExtract` and `onSubmitSuccess` move through the store. */
module ExtractionTheorems {
  import opened Wrappers
  import opened Bytes
  import opened Decimal
  import opened Packets
  import opened Extraction
  import opened ExtractionProofs
  import opened ExtractionOutcomes

  /** How an attempt's outcome becomes the result of `checkAndExtractOnce`. */
  function Outcome(st: Store, a: Attempt): Result<(Store, Option<Batch>), StoreError> {
    match a
    case Drop(dropped) => Success((Delete(st, dropped), None))
    case Ready(toSubmit, toDelete) => Success((st, Some(Batch(Format(InstallationId(st)), toSubmit, toDelete))))
    case Exhausted => Success((st, None))
  }

  /** One pass over a well-formed store never fails, and does what
      `Expected` says. */
  lemma OnceMatchesExpected(st: Store)
    requires Wf(st)
    ensures CheckAndExtractOnce(st) == Outcome(st, Expected(View(st), SampleStartTimes(st)))
    ensures CheckAndExtractOnce(st).Success?
  {
    ScanMatchesExpected(st);
  }

  /** A batch is the shortest prefix of the reports holding more than the
      minimum, all from the first report's address, with no gap above five
      minutes; half of its keys are retired. */
  lemma ExpectedReady(v: seq<Report>, keys: seq<Int64>)
    requires |v| == |keys| && Expected(v, keys).Ready?
    ensures Reach(v).Some?
    ensures var k := Reach(v).value;
      && Expected(v, keys) == Ready(v[..k], keys[..k / 2])
      && MinRequiredReports < TotalTo(v, k)
      && (forall j :: 0 <= j < k ==> Host(v[j]) == Host(v[0]))
      && (forall i :: 0 <= i < |Gaps(v[..k])| ==> Gaps(v[..k])[i] <= MaxGapNanos)
  {
    var k := Reach(v).value;
    GapCutSpec(v[..k]);
    SameHostBefore(v, k);
  }

  /** Without a mismatch before `k`, the first `k` reports share the first
      report's address. */
  lemma SameHostBefore(v: seq<Report>, k: nat)
    requires k <= |v|
    requires Mismatch(v).None? || Mismatch(v).value >= k
    ensures forall j :: 0 <= j < k ==> Host(v[j]) == Host(v[0])
  {
  }

  /** A drop removes the keys up to and including either the first report
      from another address, or the first report after the cut gap; a gap
      drop happens only with less than the minimum before the gap. */
  lemma ExpectedDrop(v: seq<Report>, keys: seq<Int64>)
    requires |v| == |keys| && Expected(v, keys).Drop?
    ensures var d := Expected(v, keys).keys;
      && 1 <= |d| <= |keys| && d == keys[..|d|]
      && DropCause(v, |d|)
  {
    var fetched := if Reach(v).Some? then Reach(v).value else |v|;
    if Mismatch(v).Some? && Mismatch(v).value < fetched {
      assert Expected(v, keys) == Drop(keys[..Mismatch(v).value + 1]);
    } else {
      GapDrop(v, keys);
    }
  }

  /** A drop without an address mismatch among the fetched reports is a gap
      drop: the prefix before the cut gap holds less than the minimum. */
  lemma GapDrop(v: seq<Report>, keys: seq<Int64>)
    requires |v| == |keys| && Expected(v, keys).Drop?
    requires Mismatch(v).None? || (Reach(v).Some? && Mismatch(v).value >= Reach(v).value)
    ensures Reach(v).Some?
    ensures var k := Reach(v).value;
      && GapCut(v[..k]).Some?
      && Expected(v, keys) == Drop(keys[..GapCut(v[..k]).value + 1])
    ensures var k := Reach(v).value;
      var c := GapCut(v[..k]).value;
      && IsGapCut(Gaps(v[..k]), c)
      && TotalTo(v, c) < MinRequiredReports
  {
    ExpectedSettles(v, keys);
    var k := Reach(v).value;
    SettleDrops(v[..k], keys);
    BelowReach(v, GapCut(v[..k]).value);
  }

  /** Without an address mismatch among the fetched reports, a drop comes
      from settling the shortest prefix holding the minimum. */
  lemma ExpectedSettles(v: seq<Report>, keys: seq<Int64>)
    requires |v| == |keys| && Expected(v, keys).Drop?
    requires Mismatch(v).None? || (Reach(v).Some? && Mismatch(v).value >= Reach(v).value)
    ensures Reach(v).Some? && Expected(v, keys) == Settle(v[..Reach(v).value], keys)
  {
  }

  /** Settling drops only at a gap cut, up to and including the report
      after it. */
  lemma SettleDrops(prefix: seq<Report>, keys: seq<Int64>)
    requires |prefix| <= |keys| && Settle(prefix, keys).Drop?
    ensures GapCut(prefix).Some?
    ensures Settle(prefix, keys) == Drop(keys[..GapCut(prefix).value + 1])
    ensures IsGapCut(Gaps(prefix), GapCut(prefix).value)
  {
    GapCutSpec(prefix);
  }

  /** Pure delay: with every report from one address and less than the
      minimum in total, nothing happens. */
  lemma TooFewWaits(v: seq<Report>, keys: seq<Int64>)
    requires |v| == |keys| && Total(v) < MinRequiredReports
    requires forall j :: 0 <= j < |v| ==> Host(v[j]) == Host(v[0])
    ensures Expected(v, keys) == Exhausted
  {
  }

  /** Pure delay: a same-address prefix holding exactly the minimum stops
      the loop before any batch is built. */
  lemma ExactMinimumWaits(v: seq<Report>, keys: seq<Int64>, k: nat)
    requires |v| == |keys| && k <= |v| && TotalTo(v, k) == MinRequiredReports
    requires forall j :: 0 <= j < k ==> Host(v[j]) == Host(v[0])
    ensures Expected(v, keys) == Exhausted
  {
    ReachAtMost(v, k);
    TotalMonotone(v, Reach(v).value, k);
  }

  /** A prefix holding the minimum bounds `Reach` from above. */
  lemma ReachAtMost(v: seq<Report>, k: nat)
    requires k <= |v| && MinRequiredReports <= TotalTo(v, k)
    ensures Reach(v).Some? && Reach(v).value <= k
  {
    TotalMonotone(v, k, |v|);
    if Reach(v).value > k {
      TotalMonotone(v, k, Reach(v).value - 1);
    }
  }

  /** A batch leaves the store as it is, carries the installation id in
      decimal and has the shape `ShapedBatch` describes. */
  lemma BatchShape(st: Store)
    requires Wf(st) && CheckAndExtractOnce(st).Success? && CheckAndExtractOnce(st).value.1.Some?
    ensures var b := CheckAndExtractOnce(st).value.1.value;
      && CheckAndExtractOnce(st).value.0 == st
      && ParseLong(b.id) == Success(InstallationId(st))
      && ShapedBatch(View(st), SampleStartTimes(st), b.toSubmit, b.toDelete)
  {
    var v := View(st);
    var keys := SampleStartTimes(st);
    OnceMatchesExpected(st);
    var a := Expected(v, keys);
    OutcomeReady(st, a);
    ReadyShape(v, keys);
    ParseLongFormat(InstallationId(st));
  }

  /** Only a ready attempt gives a batch, and the batch carries it. */
  lemma OutcomeReady(st: Store, a: Attempt)
    requires Outcome(st, a).Success? && Outcome(st, a).value.1.Some?
    ensures a.Ready? && Outcome(st, a) == Success((st, Some(Batch(Format(InstallationId(st)), a.toSubmit, a.toDelete))))
  {
  }

  /** `ExpectedReady` in terms of the batch's own length. */
  lemma ReadyShape(v: seq<Report>, keys: seq<Int64>)
    requires |v| == |keys| && Expected(v, keys).Ready?
    ensures ShapedBatch(v, keys, Expected(v, keys).toSubmit, Expected(v, keys).toDelete)
  {
    ExpectedReady(v, keys);
  }

  /** A pass without a batch that changes the store is the drop `Expected`
      decides (see `ExpectedDrop` for its cause): it deletes exactly the
      dropped keys, a prefix, together with their reports. */
  lemma DropShape(st: Store)
    requires Wf(st) && CheckAndExtractOnce(st).Success?
    requires CheckAndExtractOnce(st).value.1.None? && CheckAndExtractOnce(st).value.0 != st
    ensures Expected(View(st), SampleStartTimes(st)).Drop?
    ensures var next := CheckAndExtractOnce(st).value.0;
      && Trimmed(st, next)
      && |SampleStartTimes(st)| - |SampleStartTimes(next)| == |Expected(View(st), SampleStartTimes(st)).keys|
  {
    var keys := SampleStartTimes(st);
    OnceMatchesExpected(st);
    var a := Expected(View(st), keys);
    OutcomeDrop(st, a);
    assert CheckAndExtractOnce(st).value.0 == Delete(st, a.keys);
    DropTrims(st);
  }

  /** A pass without a batch that changes the store comes from a drop. */
  lemma OutcomeDrop(st: Store, a: Attempt)
    requires Outcome(st, a).Success? && Outcome(st, a).value.1.None? && Outcome(st, a).value.0 != st
    ensures a.Drop? && Outcome(st, a) == Success((Delete(st, a.keys), None))
  {
  }

  /** Pure delay: a store of reports from one address holding less than the
      minimum in total is left as it is, and no batch comes out. */
  lemma TooFewLeavesStore(st: Store)
    requires Wf(st) && Total(View(st)) < MinRequiredReports
    requires forall j :: 0 <= j < |View(st)| ==> Host(View(st)[j]) == Host(View(st)[0])
    ensures CheckAndExtract(st) == Success((st, None))
  {
    OnceMatchesExpected(st);
    TooFewWaits(View(st), SampleStartTimes(st));
  }

  /** Pure delay: a same-address prefix holding exactly the minimum leaves
      the store as it is, and no batch comes out. */
  lemma ExactMinimumLeavesStore(st: Store, k: nat)
    requires Wf(st) && k <= |View(st)| && TotalTo(View(st), k) == MinRequiredReports
    requires forall j :: 0 <= j < k ==> Host(View(st)[j]) == Host(View(st)[0])
    ensures CheckAndExtract(st) == Success((st, None))
  {
    OnceMatchesExpected(st);
    ExactMinimumWaits(View(st), SampleStartTimes(st), k);
  }

  /** An empty store yields no batch and stays empty. */
  lemma EmptyStoreWaits(st: Store)
    requires |SampleStartTimes(st)| == 0
    ensures CheckAndExtract(st) == Success((st, None))
  {
    assert Scan(st, SampleStartTimes(st), []) == Success(Exhausted);
  }

  /** Trimming twice is trimming. */
  lemma TrimmedTransitive(a: Store, b: Store, c: Store)
    requires Trimmed(a, b) && Trimmed(b, c)
    ensures Trimmed(a, c)
  {
    var n := |SampleStartTimes(a)| - |SampleStartTimes(b)|;
    var m := |SampleStartTimes(b)| - |SampleStartTimes(c)|;
    SuffixOfSuffix(SampleStartTimes(a), View(a), SampleStartTimes(b), View(b), n, m);
  }

  /** One pass over a well-formed store never fails, and only deletes a
      prefix of the keys together with their reports. */
  lemma OnceTrims(st: Store)
    requires Wf(st)
    ensures CheckAndExtractOnce(st).Success?
    ensures Trimmed(st, CheckAndExtractOnce(st).value.0)
  {
    var keys := SampleStartTimes(st);
    OnceMatchesExpected(st);
    match Expected(View(st), keys)
    case Drop(d) =>
      DropTrims(st);
    case _ =>
      TrimmedNothing(st);
  }

  /** A drop deletes a prefix of the keys together with their reports. */
  lemma DropTrims(st: Store)
    requires Wf(st) && Expected(View(st), SampleStartTimes(st)).Drop?
    ensures var d := Expected(View(st), SampleStartTimes(st)).keys;
      && Trimmed(st, Delete(st, d))
      && |SampleStartTimes(Delete(st, d))| == |SampleStartTimes(st)| - |d|
  {
    var keys := SampleStartTimes(st);
    DropIsPrefix(View(st), keys);
    DeletePrefixTrims(st, Expected(View(st), keys).keys);
  }

  /** The keys a drop deletes are a non-empty prefix of the store's keys. */
  lemma DropIsPrefix(v: seq<Report>, keys: seq<Int64>)
    requires |v| == |keys| && Expected(v, keys).Drop?
    ensures var d := Expected(v, keys).keys;
      1 <= |d| <= |keys| && d == keys[..|d|]
  {
  }

  /** Deleting a prefix of the keys trims the store. */
  lemma DeletePrefixTrims(st: Store, d: seq<Int64>)
    requires Wf(st) && |d| <= |SampleStartTimes(st)| && d == SampleStartTimes(st)[..|d|]
    ensures Trimmed(st, Delete(st, d))
    ensures |SampleStartTimes(Delete(st, d))| == |SampleStartTimes(st)| - |d|
  {
    DeletePrefixView(st, |d|);
  }

  /** A store trims to itself. */
  lemma TrimmedNothing(st: Store)
    requires Wf(st)
    ensures Trimmed(st, st)
  {
    assert SampleStartTimes(st)[0..] == SampleStartTimes(st) && View(st)[0..] == View(st);
  }

  /** `checkAndExtract` repeats a pass exactly when the pass gave no batch
      and shrank the store. */
  lemma CheckAndExtractStep(st: Store)
    requires CheckAndExtractOnce(st).Success?
    ensures var once := CheckAndExtractOnce(st).value;
      CheckAndExtract(st) ==
        if once.1.None? && |SampleStartTimes(once.0)| < |SampleStartTimes(st)| then CheckAndExtract(once.0)
        else Success(once)
  {
  }

  /** `checkAndExtract` on a well-formed store never fails, and only deletes
      a prefix of the keys together with their reports. */
  lemma {:induction false} CheckAndExtractTrims(st: Store)
    requires Wf(st)
    ensures CheckAndExtract(st).Success?
    ensures Trimmed(st, CheckAndExtract(st).value.0)
    decreases |SampleStartTimes(st)|
  {
    OnceTrims(st);
    CheckAndExtractStep(st);
    var once := CheckAndExtractOnce(st).value;
    if once.1.None? && |SampleStartTimes(once.0)| < |SampleStartTimes(st)| {
      CheckAndExtractTrims(once.0);
      TrimmedTransitive(st, once.0, CheckAndExtract(once.0).value.0);
    }
  }

  /** `checkAndExtract` on a well-formed store stops where `Expected` no
      longer drops: without a batch exactly when it says to wait, and
      otherwise with the batch it describes. */
  lemma CheckAndExtractSettles(st: Store)
    requires Wf(st)
    ensures CheckAndExtract(st).Success?
    ensures var (after, extracted) := CheckAndExtract(st).value;
      && Trimmed(st, after)
      && CheckAndExtract(st).value == Outcome(after, Expected(View(after), SampleStartTimes(after))).value
      && !Expected(View(after), SampleStartTimes(after)).Drop?
      && (extracted.None? <==> Expected(View(after), SampleStartTimes(after)).Exhausted?)
  {
    CheckAndExtractTrims(st);
    var r := CheckAndExtract(st).value;
    var after := r.0;
    assert CheckAndExtractOnce(after) == Success((after, r.1));
    OnceMatchesExpected(after);
    var a := Expected(View(after), SampleStartTimes(after));
    if a.Drop? {
      DropIsPrefix(View(after), SampleStartTimes(after));
    }
    OutcomeFixed(after, a, r.1);
  }

  /** An attempt whose outcome leaves a well-formed store as it is is not a
      drop of a non-empty prefix, and yields no batch exactly when it waits. */
  lemma OutcomeFixed(st: Store, a: Attempt, extracted: Option<Batch>)
    requires Wf(st) && Outcome(st, a) == Success((st, extracted))
    requires a.Drop? ==> 1 <= |a.keys| <= |SampleStartTimes(st)| && a.keys == SampleStartTimes(st)[..|a.keys|]
    ensures !a.Drop?
    ensures extracted.None? <==> a.Exhausted?
  {
    if a.Drop? {
      DeletePrefixTrims(st, a.keys);
    }
  }

  /** After a batch from a well-formed store, `onSubmitSuccess` never fails
      and leaves a suffix of the keys without the retired first half. */
  lemma SubmitTrims(st: Store, b: Batch)
    requires Wf(st) && CheckAndExtractOnce(st) == Success((st, Some(b)))
    ensures OnSubmitSuccess(st, b).Success?
    ensures var after := OnSubmitSuccess(st, b).value.0;
      && Trimmed(st, after)
      && |SampleStartTimes(after)| <= |SampleStartTimes(st)| - |b.toSubmit| / 2
  {
    var deleted := Delete(st, b.toDelete);
    DeletePrefixTrims(st, b.toDelete);
    CheckAndExtractTrims(deleted);
    TrimmedTransitive(st, deleted, CheckAndExtract(deleted).value.0);
  }

  /** Dropping `a` and then `b` more keys drops `a + b`, in the keys and in the
      reports alike. */
  lemma SuffixOfSuffix(keys: seq<Int64>, v: seq<Report>, keys': seq<Int64>, v': seq<Report>, a: nat, b: nat)
    requires a <= |keys| == |v| && keys' == keys[a..] && v' == v[a..] && b <= |keys'|
    ensures keys'[b..] == keys[a + b..] && v'[b..] == v[a + b..]
  {
  }

  /** After a batch from a well-formed store, `onSubmitSuccess` deletes the
      first half of the batch's keys: the store shrinks exactly when the
      batch holds two reports or more. */
  lemma SubmitRetiresHalf(st: Store, b: Batch)
    requires Wf(st) && CheckAndExtractOnce(st) == Success((st, Some(b)))
    ensures var after := Delete(st, b.toDelete);
      var h := |b.toSubmit| / 2;
      && Wf(after)
      && SampleStartTimes(after) == SampleStartTimes(st)[h..]
      && View(after) == View(st)[h..]
      && (|SampleStartTimes(after)| < |SampleStartTimes(st)| <==> |b.toSubmit| >= 2)
  {
    DeletePrefixView(st, |b.toSubmit| / 2);
  }

  /** A batch of one report retires nothing, so after a successful
      submission the same batch comes out again. */
  lemma SingleReportBatchRepeats(st: Store, b: Batch)
    requires CheckAndExtractOnce(st) == Success((st, Some(b))) && |b.toSubmit| == 1
    ensures OnSubmitSuccess(st, b) == Success((st, Some(b)))
  {
    assert b.toDelete == [];
    DeleteNothing(st);
  }
}
