/** The scenarios of the engine's unit tests. A list-backed store for
    installation 1 is filled, one `append` at a time, with reports built by
    the default generator one minute apart: every such report holds 60
    observations from the same address, so the minimum of 1084 is first
    passed by the 19th report. */
module Scenarios {
  import opened Wrappers
  import opened Bytes
  import opened Decimal
  import opened Packets
  import InMemoryStore
  import opened Extraction
  import opened ExtractionProofs
  import opened ExtractionTheorems
  import PacketSerDe
  import PacketGenerator
  import GeneratorProofs

  // ---------------------------------------------------------------------
  // Reports of 60 observations from one address

  /** Every report holds 60 observations and comes from the first report's
      address. */
  predicate Uniform(v: seq<Report>) {
    forall j :: 0 <= j < |v| ==> ObservationsIn(v[j]) == 60 && Host(v[j]) == Host(v[0])
  }

  /** Each uniform report adds 60 observations. */
  lemma {:induction false} UniformTotal(v: seq<Report>, k: nat)
    requires Uniform(v) && k <= |v|
    ensures TotalTo(v, k) == 60 * k
  {
    if k > 0 {
      UniformTotal(v, k - 1);
    }
  }

  /** 18 uniform reports (1080 observations) stay below the minimum. */
  lemma FewReportsWait(st: Store)
    requires Wf(st) && Uniform(View(st)) && |View(st)| <= 18
    ensures CheckAndExtract(st) == Success((st, None))
  {
    UniformTotal(View(st), |View(st)|);
    TooFewLeavesStore(st);
  }

  /** With 19 uniform reports or more and no gap above five minutes among
      the first 19, those 19 make the batch and the first 9 keys are its
      retire set. */
  lemma UniformReady(v: seq<Report>, keys: seq<Int64>)
    requires |v| == |keys| && Uniform(v) && 19 <= |v|
    requires forall i :: 0 <= i < 18 ==> Gap(v, i) <= MaxGapNanos
    ensures Expected(v, keys) == Ready(v[..19], keys[..9])
  {
    UniformTotal(v, 18);
    UniformTotal(v, 19);
    ReachUnique(v, 19);
    assert Mismatch(v).None?;
    var prefix := v[..19];
    forall i | 0 <= i < |Gaps(prefix)|
      ensures Gaps(prefix)[i] <= MaxGapNanos
    {
      assert Gaps(prefix)[i] == Gap(prefix, i) == Gap(v, i);
    }
    GapCutSpec(prefix);
  }

  /** The store-level form of `UniformReady`: the batch comes out of the
      first pass and the store is left as it is. */
  lemma UniformShips(st: Store)
    requires Wf(st) && Uniform(View(st)) && 19 <= |View(st)|
    requires forall i :: 0 <= i < 18 ==> Gap(View(st), i) <= MaxGapNanos
    ensures CheckAndExtract(st) == Success((st, Some(Batch(Format(InstallationId(st)), View(st)[..19], SampleStartTimes(st)[..9]))))
  {
    OnceMatchesExpected(st);
    UniformReady(View(st), SampleStartTimes(st));
  }

  /** What is left of uniform reports after a prefix is cut is uniform. */
  lemma UniformSuffix(v: seq<Report>, k: nat)
    requires Uniform(v) && k < |v|
    ensures Uniform(v[k..])
  {
    forall j | 0 <= j < |v| - k
      ensures ObservationsIn(v[k..][j]) == 60 && Host(v[k..][j]) == Host(v[k..][0])
    {
      assert v[k..][j] == v[k + j] && v[k..][0] == v[k];
    }
  }

  /** After a batch of 19 uniform reports is submitted, its 9 retired keys
      are gone and, with at most 27 reports to begin with, the 18 or fewer
      left wait. */
  lemma UniformSubmitWaits(st: Store, b: Batch)
    requires Wf(st) && Uniform(View(st)) && |View(st)| <= 27
    requires CheckAndExtractOnce(st) == Success((st, Some(b))) && |b.toSubmit| == 19
    ensures var after := Delete(st, SampleStartTimes(st)[..9]);
      && b.toDelete == SampleStartTimes(st)[..9]
      && OnSubmitSuccess(st, b) == Success((after, None))
      && |SampleStartTimes(after)| == |SampleStartTimes(st)| - 9
  {
    RetiresNine(st, b);
    var after := Delete(st, b.toDelete);
    UniformSuffix(View(st), 9);
    FewReportsWait(after);
    assert OnSubmitSuccess(st, b) == CheckAndExtract(after);
  }

  /** A batch of 19 retires the first 9 keys and their reports. */
  lemma RetiresNine(st: Store, b: Batch)
    requires Wf(st) && CheckAndExtractOnce(st) == Success((st, Some(b))) && |b.toSubmit| == 19
    ensures var after := Delete(st, b.toDelete);
      && b.toDelete == SampleStartTimes(st)[..9]
      && Wf(after) && View(after) == View(st)[9..]
      && |SampleStartTimes(after)| == |SampleStartTimes(st)| - 9
  {
    assert |b.toSubmit| / 2 == 9;
    SubmitRetiresHalf(st, b);
  }

  // ---------------------------------------------------------------------
  // Reports of the default generator

  /** `p` is what `PacketGenerator.defaults().withInitialTimestamp(t).build()`
      returns. */
  predicate GeneratedAt(p: Report, t: Int64, env: PacketGenerator.Environment) {
    var built := PacketGenerator.Build(PacketGenerator.Defaults().(initialTimestamp := t), env);
    built.Success? && built.value.0 == p
  }

  /** A default report carries 60 observations from 192.168.1.1, is keyed
      by its first timestamp `t`, and starts one day-offset past `t`. */
  lemma GeneratedFacts(p: Report, t: Int64, env: PacketGenerator.Environment)
    requires GeneratedAt(p, t, env)
    ensures ObservationsIn(p) == 60 && Host(p) == "192.168.1.1"
    ensures InMemoryStore.Key(p) == t
    ensures p.initialTimestamp == PacketGenerator.FirstNanosOfNext(t)
  {
    var g := PacketGenerator.Defaults().(initialTimestamp := t);
    GeneratorProofs.BuildReport(g, env);
    GeneratorProofs.MessageFits(t, 60, env);
  }

  /** The test's timestamps one minute apart stay within the default day. */
  lemma MinuteSameDay(i: nat)
    requires i <= 19
    ensures (PacketGenerator.DefaultFirstUnixTimestamp + 60 * i) / PacketGenerator.SecondsPerDay == 17708
  {
    assert PacketGenerator.DefaultFirstUnixTimestamp == 1530000000;
    assert PacketGenerator.SecondsPerDay == 86400;
    var t := 1530000000 + 60 * i;
    assert 86400 * 17708 <= t < 86400 * 17709;
  }

  /** Default reports one minute apart in the default day start one minute
      apart, well inside the five-minute tolerance. */
  lemma MinuteGap(i: nat)
    requires i < 19
    ensures SubInt64(PacketGenerator.FirstNanosOfNext(PacketGenerator.DefaultFirstUnixTimestamp + 60 * (i + 1)),
                     PacketGenerator.FirstNanosOfNext(PacketGenerator.DefaultFirstUnixTimestamp + 60 * i))
            == 60_000_000_000 <= MaxGapNanos
  {
    var s := PacketGenerator.DefaultFirstUnixTimestamp + 60 * i;
    var t := PacketGenerator.DefaultFirstUnixTimestamp + 60 * (i + 1);
    MinuteSameDay(i);
    MinuteSameDay(i + 1);
    PacketGenerator.SameDayNanos(s, t);
    assert PacketGenerator.SecondToNano == 1_000_000_000;
    SubInt64Wraps(PacketGenerator.FirstNanosOfNext(t), PacketGenerator.FirstNanosOfNext(s));
  }

  /** `ps[i]` is the default report for the test's `i`-th minute. */
  predicate Minutes(ps: seq<Report>, env: PacketGenerator.Environment) {
    |ps| <= 20 &&
    forall i :: 0 <= i < |ps| ==> GeneratedAt(ps[i], PacketGenerator.DefaultFirstUnixTimestamp + 60 * i, env)
  }

  /** `far` is the default report 100000 seconds past the default start. */
  predicate Far(far: Report, env: PacketGenerator.Environment) {
    GeneratedAt(far, PacketGenerator.DefaultFirstUnixTimestamp + 100000, env)
  }

  /** The store of the test's `setup`, after `append`ing `ps` in order. */
  function Filled(ps: seq<Report>): (st: InMemoryStore.Store)
    ensures st.installationId == 1 && st.packets == ps
  {
    if |ps| == 0 then InMemoryStore.New(1, [])
    else InMemoryStore.Append(Filled(ps[..|ps| - 1]), ps[|ps| - 1])
  }

  /** What the store needs to know of a test report: 60 observations from
      192.168.1.1 under key `D + offset`, starting at the generator's
      start of the following day-offset. */
  predicate Placed(p: Report, offset: nat) {
    && ObservationsIn(p) == 60 && Host(p) == "192.168.1.1"
    && InMemoryStore.Key(p) == PacketGenerator.DefaultFirstUnixTimestamp + offset
    && p.initialTimestamp == PacketGenerator.FirstNanosOfNext(PacketGenerator.DefaultFirstUnixTimestamp + offset)
  }

  /** The minute reports, and the far one, are placed at their offsets. */
  lemma MinuteReports(ps: seq<Report>, env: PacketGenerator.Environment)
    requires Minutes(ps, env)
    ensures forall i :: 0 <= i < |ps| ==> Placed(ps[i], 60 * i)
  {
    forall i | 0 <= i < |ps|
      ensures Placed(ps[i], 60 * i)
    {
      GeneratedFacts(ps[i], PacketGenerator.DefaultFirstUnixTimestamp + 60 * i, env);
    }
  }

  /** The test store over placed minute reports, possibly followed by the
      far report, has distinct keys and uniform reports, and its gaps within
      the minute reports are one minute. */
  lemma MinuteStore(ps: seq<Report>, tail: seq<Report>)
    requires |ps| <= 19 && forall i :: 0 <= i < |ps| ==> Placed(ps[i], 60 * i)
    requires |tail| <= 1 && (|tail| == 1 ==> Placed(tail[0], 100000))
    ensures var st := InMemory(Filled(ps + tail));
      && Wf(st) && View(st) == ps + tail && Uniform(View(st))
      && forall i :: 0 <= i < |ps| - 1 ==> Gap(View(st), i) <= MaxGapNanos
  {
    var v := ps + tail;
    MinuteSequence(ps, tail);
    var mem := Filled(v);
    var keys := InMemoryStore.SampleStartTimes(mem);
    assert forall i :: 0 <= i < |v| ==> keys[i] == InMemoryStore.Key(v[i]);
    assert Distinct(keys);
  }

  /** The same facts about the reports themselves, in append order. */
  lemma MinuteSequence(ps: seq<Report>, tail: seq<Report>)
    requires |ps| <= 19 && forall i :: 0 <= i < |ps| ==> Placed(ps[i], 60 * i)
    requires |tail| <= 1 && (|tail| == 1 ==> Placed(tail[0], 100000))
    ensures var v := ps + tail;
      && Uniform(v)
      && (forall i, j :: 0 <= i < j < |v| ==> InMemoryStore.Key(v[i]) != InMemoryStore.Key(v[j]))
      && forall i :: 0 <= i < |ps| - 1 ==> Gap(v, i) <= MaxGapNanos
  {
    var v := ps + tail;
    forall i | 0 <= i < |v|
      ensures ObservationsIn(v[i]) == 60 && Host(v[i]) == "192.168.1.1"
      ensures InMemoryStore.Key(v[i]) == PacketGenerator.DefaultFirstUnixTimestamp + (if i < |ps| then 60 * i else 100000)
    {
      if i < |ps| {
        assert v[i] == ps[i];
      } else {
        assert v[i] == tail[0];
      }
    }
    assert forall i :: 0 <= i < |ps| ==> v[i] == ps[i];
    MinuteGaps(v, |ps|);
  }

  /** Reports starting at the test's minutes, in order, are one minute
      apart. */
  lemma MinuteGaps(v: seq<Report>, k: nat)
    requires k <= 19 && k <= |v|
    requires forall i :: 0 <= i < k ==>
      v[i].initialTimestamp == PacketGenerator.FirstNanosOfNext(PacketGenerator.DefaultFirstUnixTimestamp + 60 * i)
    ensures forall i :: 0 <= i < k - 1 ==> Gap(v, i) <= MaxGapNanos
  {
    forall i | 0 <= i < k - 1
      ensures Gap(v, i) <= MaxGapNanos
    {
      MinuteGap(i);
    }
  }

  // ---------------------------------------------------------------------
  // The four test scenarios

  /** `testEmptyMeasurements`: a fresh store gives no batch. */
  lemma EmptyMeasurements()
    ensures CheckAndExtract(InMemory(Filled([]))) == Success((InMemory(Filled([])), None))
  {
    EmptyStoreWaits(InMemory(Filled([])));
  }

  /** `testTooFewPacketsGrowable`: 16 minute reports (960 observations)
      give no batch and keep all 16 keys. */
  lemma TooFewPacketsGrowable(ps: seq<Report>, env: PacketGenerator.Environment)
    requires |ps| == 16 && Minutes(ps, env)
    ensures var st := InMemory(Filled(ps));
      && CheckAndExtract(st) == Success((st, None))
      && |SampleStartTimes(st)| == 16
  {
    MinuteReports(ps, env);
    MinuteStore(ps, []);
    assert ps + [] == ps;
    FewReportsWait(InMemory(Filled(ps)));
  }

  /** `testTooFewPacketsWithNoGrowth` as the engine is written: with the
      far report appended, 17 reports hold 1020 observations, below the
      minimum, so nothing is dropped and all 17 keys stay. */
  lemma TooFewPacketsWithNoGrowth(ps: seq<Report>, far: Report, env: PacketGenerator.Environment)
    requires |ps| == 16 && Minutes(ps, env) && Far(far, env)
    ensures var st := InMemory(Filled(ps + [far]));
      && CheckAndExtract(st) == Success((st, None))
      && |SampleStartTimes(st)| == 17
  {
    MinuteReports(ps, env);
    GeneratedFacts(far, PacketGenerator.DefaultFirstUnixTimestamp + 100000, env);
    MinuteStore(ps, [far]);
    FewReportsWait(InMemory(Filled(ps + [far])));
  }

  /** `testEnoughMeasurementsWithNoGrowth`: 19 minute reports and the far
      one give a batch of the 19, the store keeps its 20 keys, and after
      `onSubmitSuccess` 11 keys are left and no further batch comes out. */
  lemma EnoughMeasurementsWithNoGrowth(ps: seq<Report>, far: Report, env: PacketGenerator.Environment)
    requires |ps| == 19 && Minutes(ps, env) && Far(far, env)
    ensures var st := InMemory(Filled(ps + [far]));
      && CheckAndExtract(st).Success?
      && CheckAndExtract(st).value.0 == st
      && CheckAndExtract(st).value.1.Some?
      && CheckAndExtract(st).value.1.value.toSubmit == ps
      && |SampleStartTimes(st)| == 20
    ensures var st := InMemory(Filled(ps + [far]));
      var b := CheckAndExtract(st).value.1.value;
      && OnSubmitSuccess(st, b).Success?
      && OnSubmitSuccess(st, b).value.1.None?
      && |SampleStartTimes(OnSubmitSuccess(st, b).value.0)| == 11
  {
    var st := InMemory(Filled(ps + [far]));
    MinuteReports(ps, env);
    GeneratedFacts(far, PacketGenerator.DefaultFirstUnixTimestamp + 100000, env);
    MinuteStore(ps, [far]);
    UniformShips(st);
    assert View(st)[..19] == ps;
    var b := CheckAndExtract(st).value.1.value;
    UniformSubmitWaits(st, b);
  }
}
