/** What the extraction engine does, stated without its loop. For a
    well-formed store (no repeated key in memory; sorted keys with their files
    on disk) one pass of `checkAndExtractOnce` is fixed by three facts about
    the reports in key order: the shortest prefix holding the minimum, the
    first report from another address, and the gaps in that prefix. */
module ExtractionProofs {
  import opened Wrappers
  import opened Bytes
  import opened Decimal
  import opened Packets
  import InMemoryStore
  import FilesystemStore
  import opened Extraction

  predicate Distinct(keys: seq<Int64>) {
    forall i, j :: 0 <= i < j < |keys| ==> keys[i] != keys[j]
  }

  /** The stores the engine is meant for. The filesystem store has this
      shape when its directory holds only canonical report names
      (`FilesystemStore.NewConsistent`) and keeps it under `append` and
      `delete`; a name with leading zeros breaks it
      (`FilesystemStore.LeadingZerosInconsistent`). The list-backed store has
      it when its packets have distinct keys. */
  predicate Wf(st: Store) {
    match st
    case InMemory(mem) => Distinct(InMemoryStore.SampleStartTimes(mem))
    case Filesystem(fs) => FilesystemStore.Consistent(fs)
  }

  /** The report stored under each key, in key order. */
  function View(st: Store): (v: seq<Report>)
    requires Wf(st)
    ensures |v| == |SampleStartTimes(st)|
  {
    match st
    case InMemory(mem) => mem.packets
    case Filesystem(fs) =>
      OnDiskStored(fs);
      StoredUnder(fs.files, FileNames(fs.samples))
  }

  /** The file name of each key, in key order. */
  function FileNames(keys: seq<Int64>): (names: seq<string>)
    ensures |names| == |keys|
  {
    var name := (t: Int64) => FilesystemStore.ReportFileName(t);
    MapSeq(name, keys)
  }

  /** `f` applied to each element, in order. */
  function MapSeq<K, N>(f: K -> N, xs: seq<K>): (ys: seq<N>)
    ensures |ys| == |xs|
  {
    if |xs| == 0 then [] else [f(xs[0])] + MapSeq(f, xs[1..])
  }

  lemma {:induction false} MapSeqAt<K, N>(f: K -> N, xs: seq<K>, i: nat)
    requires i < |xs|
    ensures MapSeq(f, xs)[i] == f(xs[i])
  {
    if i > 0 {
      MapSeqAt(f, xs[1..], i - 1);
    }
  }

  lemma FileNamesAt(keys: seq<Int64>, i: nat)
    requires i < |keys|
    ensures FileNames(keys)[i] == FilesystemStore.ReportFileName(keys[i])
  {
    var name := (t: Int64) => FilesystemStore.ReportFileName(t);
    MapSeqAt(name, keys, i);
    assert name(keys[i]) == FilesystemStore.ReportFileName(keys[i]);
  }

  lemma MapSeqSuffix<K, N>(f: K -> N, xs: seq<K>, n: nat)
    requires n <= |xs|
    ensures MapSeq(f, xs[n..]) == MapSeq(f, xs)[n..]
  {
    forall j | 0 <= j < |xs| - n ensures MapSeq(f, xs[n..])[j] == MapSeq(f, xs)[n + j] {
      MapSeqAt(f, xs[n..], j);
      MapSeqAt(f, xs, n + j);
    }
  }

  lemma FileNamesSuffix(keys: seq<Int64>, n: nat)
    requires n <= |keys|
    ensures FileNames(keys[n..]) == FileNames(keys)[n..]
  {
    var name := (t: Int64) => FilesystemStore.ReportFileName(t);
    MapSeqSuffix(name, keys, n);
  }

  predicate AllStored<N, V>(m: map<N, V>, names: seq<N>) {
    forall i :: 0 <= i < |names| ==> names[i] in m
  }

  /** Every key of a consistent store has its file. */
  lemma OnDiskStored(fs: FilesystemStore.Store)
    requires FilesystemStore.Consistent(fs)
    ensures AllStored(fs.files, FileNames(fs.samples))
  {
    forall i | 0 <= i < |fs.samples| ensures FileNames(fs.samples)[i] in fs.files {
      FileNamesAt(fs.samples, i);
      assert fs.samples[i] in fs.samples;
    }
  }

  /** The values under `names`, in order: the packets in those files. */
  function StoredUnder<N, V>(m: map<N, V>, names: seq<N>): (v: seq<V>)
    requires AllStored(m, names)
    ensures |v| == |names|
  {
    if |names| == 0 then []
    else
      assert forall i :: 0 <= i < |names| - 1 ==> names[1..][i] == names[i + 1];
      [m[names[0]]] + StoredUnder(m, names[1..])
  }

  /** Position `i` of `StoredUnder` is the value under `names[i]`. */
  lemma {:induction false} StoredUnderAt<N, V>(m: map<N, V>, names: seq<N>, i: nat)
    requires AllStored(m, names) && i < |names|
    ensures StoredUnder(m, names)[i] == m[names[i]]
  {
    if i > 0 {
      assert forall k :: 0 <= k < |names| - 1 ==> names[1..][k] == names[k + 1];
      StoredUnderAt(m, names[1..], i - 1);
    }
  }

  /** Fetching one key of a well-formed store gives exactly its report. */
  lemma FetchView(st: Store, i: nat)
    requires Wf(st) && i < |SampleStartTimes(st)|
    ensures Get(st, [SampleStartTimes(st)[i]]) == Success([View(st)[i]])
  {
    match st
    case InMemory(mem) =>
      var ps := mem.packets;
      var keys := InMemoryStore.SampleStartTimes(mem);
      forall j | 0 <= j < |ps| && j != i ensures InMemoryStore.Key(ps[j]) != keys[i] {
        assert keys[j] == InMemoryStore.Key(ps[j]);
        if j < i {
          assert keys[j] != keys[i];
        } else {
          assert keys[i] != keys[j];
        }
      }
      InMemoryStore.KeepOnly(ps, keys[i], i);
    case Filesystem(fs) =>
      FilesystemStore.GetSample(fs, i);
      FileNamesAt(fs.samples, i);
      OnDiskStored(fs);
      StoredUnderAt(fs.files, FileNames(fs.samples), i);
  }

  /** Deleting the first `n` keys of a well-formed store drops exactly the
      first `n` reports and keeps the store well formed. */
  lemma DeletePrefixView(st: Store, n: nat)
    requires Wf(st) && n <= |SampleStartTimes(st)|
    ensures var r := Delete(st, SampleStartTimes(st)[..n]);
      && Wf(r)
      && SampleStartTimes(r) == SampleStartTimes(st)[n..]
      && View(r) == View(st)[n..]
  {
    match st
    case InMemory(mem) =>
      DeletePrefixInMemory(mem, n);
    case Filesystem(fs) =>
      DeletePrefixOnDisk(fs, n);
  }

  lemma DeletePrefixOnDisk(fs: FilesystemStore.Store, n: nat)
    requires FilesystemStore.Consistent(fs) && n <= |fs.samples|
    ensures var r := Delete(Filesystem(fs), fs.samples[..n]);
      && Wf(r)
      && SampleStartTimes(r) == fs.samples[n..]
      && View(r) == View(Filesystem(fs))[n..]
  {
    var r := FilesystemStore.Delete(fs, fs.samples[..n]);
    FilesystemStore.DeletePrefix(fs, n);
    ViewSuffix(fs, r, n);
    assert Delete(Filesystem(fs), fs.samples[..n]) == Filesystem(r);
  }

  /** Dropping the first `n` keys while keeping the files of the others drops
      the first `n` reports of the view. */
  lemma ViewSuffix(fs: FilesystemStore.Store, r: FilesystemStore.Store, n: nat)
    requires FilesystemStore.Consistent(fs) && FilesystemStore.Consistent(r)
    requires n <= |fs.samples| && r.samples == fs.samples[n..]
    requires forall name :: name in r.files ==> name in fs.files && r.files[name] == fs.files[name]
    ensures View(Filesystem(r)) == View(Filesystem(fs))[n..]
  {
    OnDiskStored(fs);
    OnDiskStored(r);
    FileNamesSuffix(fs.samples, n);
    StoredSuffix(fs.files, r.files, FileNames(fs.samples), n);
  }

  /** Reading the last names from a map that agrees with `m` wherever it is
      defined reads a suffix. */
  lemma StoredSuffix<N, V>(m: map<N, V>, kept: map<N, V>, names: seq<N>, n: nat)
    requires AllStored(m, names) && n <= |names| && AllStored(kept, names[n..])
    requires forall name :: name in kept ==> name in m && kept[name] == m[name]
    ensures StoredUnder(kept, names[n..]) == StoredUnder(m, names)[n..]
  {
    var rest := names[n..];
    forall j | 0 <= j < |rest| ensures StoredUnder(kept, rest)[j] == StoredUnder(m, names)[n + j] {
      StoredUnderAt(kept, rest, j);
      StoredUnderAt(m, names, n + j);
    }
  }

  lemma DeletePrefixInMemory(mem: InMemoryStore.Store, n: nat)
    requires Distinct(InMemoryStore.SampleStartTimes(mem)) && n <= |mem.packets|
    ensures var r := InMemoryStore.Delete(mem, InMemoryStore.SampleStartTimes(mem)[..n]);
      r.packets == mem.packets[n..] && InMemoryStore.SampleStartTimes(r) == InMemoryStore.SampleStartTimes(mem)[n..]
  {
    var ps := mem.packets;
    var keys := InMemoryStore.SampleStartTimes(mem);
    var range := keys[..n];
    forall j | 0 <= j < |ps| ensures InMemoryStore.Key(ps[j]) in range <==> j < n {
      assert keys[j] == InMemoryStore.Key(ps[j]);
      if j < n {
        assert range[j] == keys[j];
      }
    }
    InMemoryStore.KeepDropsPrefix(ps, range, n);
    var r := InMemoryStore.Delete(mem, range);
    assert InMemoryStore.SampleStartTimes(r) == keys[n..];
  }

  /** Deleting nothing changes nothing. */
  lemma DeleteNothing(st: Store)
    ensures Delete(st, []) == st
  {
    match st
    case InMemory(mem) =>
      InMemoryStore.KeepUniform(mem.packets, [], false);
    case Filesystem(fs) =>
      FilesystemStore.KeepAllSorted(fs.samples, []);
      var names := set t | t in [] :: FilesystemStore.ReportFileName(t);
      assert names == {};
      assert fs.files - names == fs.files;
  }

  /** The observation count only grows along prefixes. */
  lemma {:induction false} TotalMonotone(v: seq<Report>, a: nat, b: nat)
    requires a <= b <= |v|
    ensures TotalTo(v, a) <= TotalTo(v, b)
    decreases b - a
  {
    if a < b {
      TotalMonotone(v, a, b - 1);
    }
  }

  /** Every prefix shorter than `Reach` holds fewer than the minimum. */
  lemma BelowReach(v: seq<Report>, c: nat)
    requires Reach(v).Some? && c < Reach(v).value
    ensures TotalTo(v, c) < MinRequiredReports
  {
    TotalMonotone(v, c, Reach(v).value - 1);
  }

  /** The length of the shortest prefix of the first `n` reports holding at
      least the minimum, if any. */
  function ReachBelow(v: seq<Report>, n: nat): (k: Option<nat>)
    requires n <= |v|
    ensures k.None? <==> TotalTo(v, n) < MinRequiredReports
    ensures k.Some? ==>
      && 1 <= k.value <= n
      && TotalTo(v, k.value - 1) < MinRequiredReports <= TotalTo(v, k.value)
  {
    if n == 0 then None
    else
      match ReachBelow(v, n - 1)
      case Some(k) => Some(k)
      case None => if TotalTo(v, n) >= MinRequiredReports then Some(n) else None
  }

  /** The length of the shortest prefix holding at least the minimum, if any. */
  function Reach(v: seq<Report>): (k: Option<nat>)
    ensures k.None? <==> Total(v) < MinRequiredReports
    ensures k.Some? ==>
      && 1 <= k.value <= |v|
      && TotalTo(v, k.value - 1) < MinRequiredReports <= TotalTo(v, k.value)
  {
    ReachBelow(v, |v|)
  }

  /** A prefix length with the defining property of `Reach` is `Reach`. */
  lemma ReachUnique(v: seq<Report>, k: nat)
    requires 1 <= k <= |v|
    requires TotalTo(v, k - 1) < MinRequiredReports <= TotalTo(v, k)
    ensures Reach(v) == Some(k)
  {
    ReachBelowUnique(v, k, |v|);
  }

  lemma {:induction false} ReachBelowUnique(v: seq<Report>, k: nat, n: nat)
    requires 1 <= k <= n <= |v|
    requires TotalTo(v, k - 1) < MinRequiredReports <= TotalTo(v, k)
    ensures ReachBelow(v, n) == Some(k)
  {
    if n > k {
      ReachBelowUnique(v, k, n - 1);
    }
  }

  /** The position of the first report whose address differs from the first
      report's, if any. */
  function Mismatch(v: seq<Report>): (j: Option<nat>)
    ensures j.None? <==> forall i :: 0 <= i < |v| ==> Host(v[i]) == Host(v[0])
    ensures j.Some? ==>
      && 1 <= j.value < |v|
      && Host(v[j.value]) != Host(v[0])
      && forall i :: 0 <= i < j.value ==> Host(v[i]) == Host(v[0])
  {
    if |v| <= 1 then None
    else
      var front := v[..|v| - 1];
      assert forall i :: 0 <= i < |v| - 1 ==> front[i] == v[i];
      match Mismatch(front)
      case Some(j) => Some(j)
      case None => if Host(v[|v| - 1]) != Host(v[0]) then Some(|v| - 1) else None
  }

  /** One pass of the engine, stated directly: the reports it fetches are
      the shortest prefix holding the minimum (or all of them); a foreign
      address among them drops up to and including it; a prefix holding
      exactly the minimum, or too little, waits; otherwise a gap drops up
      to the gap and no gap gives a batch of the whole prefix, half of which
      is retired. */
  function Expected(v: seq<Report>, keys: seq<Int64>): (a: Attempt)
    requires |v| == |keys|
  {
    var fetched := if Reach(v).Some? then Reach(v).value else |v|;
    var mismatch := Mismatch(v);
    if mismatch.Some? && mismatch.value < fetched then Drop(keys[..mismatch.value + 1])
    else if Reach(v).None? || TotalTo(v, fetched) == MinRequiredReports then Exhausted
    else Settle(v[..fetched], keys)
  }

  /** The end of a pass over reports past the minimum, all from one address:
      a gap drops up to and including its first report, otherwise all of
      them ship and half as many keys are retired. */
  function Settle(prefix: seq<Report>, keys: seq<Int64>): Attempt
    requires |prefix| <= |keys|
  {
    match GapCut(prefix)
    case Some(c) => Drop(keys[..c + 1])
    case None => Ready(prefix, keys[..|prefix| / 2])
  }

  /** With fewer than the minimum before the last report, a gap always
      drops: `Cut` never truncates the reports it was given. */
  lemma CutNeverTruncates(keys: seq<Int64>, grown: seq<Report>)
    requires 1 <= |grown| <= |keys| && MinRequiredReports < Total(grown)
    requires TotalTo(grown, |grown| - 1) < MinRequiredReports
    ensures Cut(keys, grown) == Settle(grown, keys)
  {
    match GapCut(grown)
    case Some(c) =>
      TotalMonotone(grown, c, |grown| - 1);
      assert Cut(keys, grown) == Drop(keys[..c + 1]);
    case None =>
      assert Cut(keys, grown) == Ready(grown, keys[..|grown| / 2]);
  }

  /** The loop of `checkAndExtractOnce` with the store's reports at hand:
      `v[i]` stands for the report fetched for `keys[i]`. */
  function Walk(keys: seq<Int64>, v: seq<Report>, i: nat): Attempt
    requires |v| == |keys| && i <= |v|
    decreases |v| - i
  {
    if TotalTo(v, i) >= MinRequiredReports || i == |keys| then Exhausted
    else if i > 0 && Host(v[0]) != Host(v[i]) then Drop(keys[..i + 1])
    else if TotalTo(v, i + 1) <= MinRequiredReports then Walk(keys, v, i + 1)
    else
      TotalOfPrefix(v, i + 1);
      Cut(keys, v[..i + 1])
  }

  /** Over a well-formed store, the loop fetches exactly the reports of the
      view, so it walks them. */
  lemma ScanIsWalk(st: Store)
    requires Wf(st)
    ensures Scan(st, SampleStartTimes(st), View(st)[..0]) == Success(Walk(SampleStartTimes(st), View(st), 0))
  {
    ScanAtSteps(st);
    ScanAtStops(st);
    StepsAgree((k: nat) => ScanAt(st, k), (k: nat) => WalkAt(st, k), (k: nat) => Continues(View(st), k), 0, |SampleStartTimes(st)|);
  }

  /** The loop after the first `k` reports of a well-formed store. */
  function ScanAt(st: Store, k: nat): Result<Attempt, StoreError>
    requires Wf(st)
  {
    if k <= |SampleStartTimes(st)| then Scan(st, SampleStartTimes(st), View(st)[..k]) else Failure(EmptyFetch(0))
  }

  /** The walk after the first `k` reports of a well-formed store. */
  function WalkAt(st: Store, k: nat): Result<Attempt, StoreError>
    requires Wf(st)
  {
    if k <= |SampleStartTimes(st)| then Success(Walk(SampleStartTimes(st), View(st), k)) else Failure(EmptyFetch(0))
  }

  lemma ScanAtSteps(st: Store)
    requires Wf(st)
    ensures forall k :: 0 <= k <= |SampleStartTimes(st)| && Continues(View(st), k) ==>
      && k < |SampleStartTimes(st)|
      && ScanAt(st, k) == ScanAt(st, k + 1)
      && WalkAt(st, k) == WalkAt(st, k + 1)
  {
    forall k | 0 <= k <= |SampleStartTimes(st)| && Continues(View(st), k)
      ensures k < |SampleStartTimes(st)| && ScanAt(st, k) == ScanAt(st, k + 1) && WalkAt(st, k) == WalkAt(st, k + 1)
    {
      ScanWalkStep(st, SampleStartTimes(st), View(st), k);
    }
  }

  lemma ScanAtStops(st: Store)
    requires Wf(st)
    ensures forall k :: 0 <= k <= |SampleStartTimes(st)| && !Continues(View(st), k) ==> ScanAt(st, k) == WalkAt(st, k)
  {
    forall k | 0 <= k <= |SampleStartTimes(st)| && !Continues(View(st), k) ensures ScanAt(st, k) == WalkAt(st, k) {
      ScanWalkStop(st, SampleStartTimes(st), View(st), k);
    }
  }

  /** Two runs indexed from `i` up to `n` agree at `i` when, at each index,
      either both step to the next index or they meet there. */
  lemma {:induction false} StepsAgree<T>(f: nat -> T, g: nat -> T, go: nat -> bool, i: nat, n: nat)
    requires i <= n
    requires forall k :: i <= k <= n && go(k) ==> k < n && f(k) == f(k + 1) && g(k) == g(k + 1)
    requires forall k :: i <= k <= n && !go(k) ==> f(k) == g(k)
    ensures f(i) == g(i)
    decreases n - i
  {
    if go(i) {
      StepsAgree(f, g, go, i + 1, n);
    }
  }

  /** The loop goes on past report `i`: it is below the minimum before and
      after taking it, and report `i` comes from the first report's address. */
  predicate Continues(v: seq<Report>, i: nat) {
    && i < |v|
    && TotalTo(v, i) < MinRequiredReports
    && !(i > 0 && Host(v[0]) != Host(v[i]))
    && TotalTo(v, i + 1) <= MinRequiredReports
  }

  lemma ScanWalkStep(st: Store, keys: seq<Int64>, v: seq<Report>, i: nat)
    requires Wf(st) && keys == SampleStartTimes(st) && v == View(st) && Continues(v, i)
    ensures i < |keys|
    ensures Scan(st, keys, v[..i]) == Scan(st, keys, v[..i + 1])
    ensures Walk(keys, v, i) == Walk(keys, v, i + 1)
  {
    ScanFetch(st, keys, v, i);
  }

  lemma ScanWalkStop(st: Store, keys: seq<Int64>, v: seq<Report>, i: nat)
    requires Wf(st) && keys == SampleStartTimes(st) && v == View(st) && i <= |keys|
    requires !Continues(v, i)
    ensures Scan(st, keys, v[..i]) == Success(Walk(keys, v, i))
  {
    TotalOfPrefix(v, i);
    if TotalTo(v, i) < MinRequiredReports && i < |keys| {
      ScanFetch(st, keys, v, i);
    }
  }

  /** The walk after `i` reports, all from the first report's address, that
      did not reach the minimum before the last, ends as `Expected` says. */
  lemma {:induction false} WalkMatchesExpected(keys: seq<Int64>, v: seq<Report>, i: nat)
    requires |v| == |keys| && i <= |v|
    requires TotalTo(v, i) <= MinRequiredReports
    requires i == 0 || TotalTo(v, i - 1) < MinRequiredReports
    requires forall j :: 0 <= j < i ==> Host(v[j]) == Host(v[0])
    ensures Walk(keys, v, i) == Expected(v, keys)
    decreases |v| - i
  {
    if Continues(v, i) {
      SameHostExtends(v, i);
      WalkMatchesExpected(keys, v, i + 1);
      assert Walk(keys, v, i) == Walk(keys, v, i + 1);
    } else {
      WalkStops(keys, v, i);
    }
  }

  /** Where the walk stops, it ends as `Expected` says. */
  lemma WalkStops(keys: seq<Int64>, v: seq<Report>, i: nat)
    requires |v| == |keys| && i <= |v| && !Continues(v, i)
    requires TotalTo(v, i) <= MinRequiredReports
    requires i == 0 || TotalTo(v, i - 1) < MinRequiredReports
    requires forall j :: 0 <= j < i ==> Host(v[j]) == Host(v[0])
    ensures Walk(keys, v, i) == Expected(v, keys)
  {
    if TotalTo(v, i) >= MinRequiredReports || i == |keys| {
      ExpectedWaits(v, keys, i);
      assert Walk(keys, v, i) == Exhausted;
    } else if i > 0 && Host(v[0]) != Host(v[i]) {
      ExpectedMismatch(v, keys, i);
      assert Walk(keys, v, i) == Drop(keys[..i + 1]);
    } else {
      WalkCuts(keys, v, i);
      SameHostExtends(v, i);
      ExpectedCut(v, keys, i);
    }
  }

  /** The walk takes report `i` past the minimum and settles. */
  lemma WalkCuts(keys: seq<Int64>, v: seq<Report>, i: nat)
    requires |v| == |keys| && i < |v|
    requires TotalTo(v, i) < MinRequiredReports < TotalTo(v, i + 1)
    requires !(i > 0 && Host(v[0]) != Host(v[i]))
    ensures Walk(keys, v, i) == Settle(v[..i + 1], keys)
  {
    TotalOfPrefix(v, i + 1);
    GrownCut(v, keys, i);
  }

  /** One turn of the loop over the reports of a well-formed store: fetch
      report `i`, then drop, go on, or cut. */
  lemma ScanFetch(st: Store, keys: seq<Int64>, v: seq<Report>, i: nat)
    requires Wf(st) && keys == SampleStartTimes(st) && v == View(st) && i < |keys|
    requires TotalTo(v, i) < MinRequiredReports
    ensures Total(v[..i + 1]) == TotalTo(v, i + 1)
    ensures Scan(st, keys, v[..i]) ==
      if i > 0 && Host(v[0]) != Host(v[i]) then Success(Drop(keys[..i + 1]))
      else if TotalTo(v, i + 1) <= MinRequiredReports then Scan(st, keys, v[..i + 1])
      else Success(Cut(keys, v[..i + 1]))
  {
    TotalOfPrefix(v, i);
    FetchView(st, i);
    ScanUnfold(st, keys, v[..i], v[i]);
    PrefixSnoc(v, i);
    TotalOfPrefix(v, i + 1);
  }

  /** `Cut` settles the first `i + 1` reports when only the last took them
      past the minimum. */
  lemma GrownCut(v: seq<Report>, keys: seq<Int64>, i: nat)
    requires |v| == |keys| && i < |v|
    requires TotalTo(v, i) < MinRequiredReports < Total(v[..i + 1])
    ensures Cut(keys, v[..i + 1]) == Settle(v[..i + 1], keys)
  {
    var grown := v[..i + 1];
    assert forall j :: 0 <= j < i ==> grown[j] == v[j];
    TotalToAgrees(v, grown, i);
    CutNeverTruncates(keys, grown);
  }

  lemma PrefixSnoc(v: seq<Report>, i: nat)
    requires i < |v|
    ensures v[..i] + [v[i]] == v[..i + 1]
  {
  }

  lemma SameHostExtends(v: seq<Report>, i: nat)
    requires i < |v|
    requires forall j :: 0 <= j < i ==> Host(v[j]) == Host(v[0])
    requires !(i > 0 && Host(v[0]) != Host(v[i]))
    ensures forall j :: 0 <= j < i + 1 ==> Host(v[j]) == Host(v[0])
  {
  }

  /** One turn of the loop once the next report has been fetched. */
  lemma ScanUnfold(st: Store, keys: seq<Int64>, processable: seq<Report>, next: Report)
    requires |processable| < |keys| && Total(processable) < MinRequiredReports
    requires Get(st, [keys[|processable|]]) == Success([next])
    ensures Scan(st, keys, processable) ==
      if |processable| > 0 && Host(processable[0]) != Host(next) then Success(Drop(keys[..|processable| + 1]))
      else if Total(processable + [next]) <= MinRequiredReports then Scan(st, keys, processable + [next])
      else Success(Cut(keys, processable + [next]))
  {
  }

  /** The loop stops without fetching more: all reports are in, or exactly
      the minimum is. */
  lemma ExpectedWaits(v: seq<Report>, keys: seq<Int64>, i: nat)
    requires |v| == |keys| && i <= |v|
    requires TotalTo(v, i) <= MinRequiredReports
    requires i == 0 || TotalTo(v, i - 1) < MinRequiredReports
    requires forall j :: 0 <= j < i ==> Host(v[j]) == Host(v[0])
    requires TotalTo(v, i) >= MinRequiredReports || i == |v|
    ensures Expected(v, keys) == Exhausted
  {
    if TotalTo(v, i) >= MinRequiredReports {
      ReachUnique(v, i);
    }
  }

  /** The report fetched after `i` same-address reports comes from elsewhere. */
  lemma ExpectedMismatch(v: seq<Report>, keys: seq<Int64>, i: nat)
    requires |v| == |keys| && 1 <= i < |v|
    requires TotalTo(v, i) < MinRequiredReports
    requires forall j :: 0 <= j < i ==> Host(v[j]) == Host(v[0])
    requires Host(v[i]) != Host(v[0])
    ensures Expected(v, keys) == Drop(keys[..i + 1])
  {
    if Reach(v).Some? && Reach(v).value <= i {
      TotalMonotone(v, Reach(v).value, i);
    }
  }

  /** The report fetched after `i` same-address reports takes the total past
      the minimum. */
  lemma ExpectedCut(v: seq<Report>, keys: seq<Int64>, i: nat)
    requires |v| == |keys| && i < |v|
    requires TotalTo(v, i) < MinRequiredReports < TotalTo(v, i + 1)
    requires forall j :: 0 <= j <= i ==> Host(v[j]) == Host(v[0])
    ensures Expected(v, keys) == Settle(v[..i + 1], keys)
  {
    ReachUnique(v, i + 1);
  }

  /** The engine's loop computes the direct statement. */
  lemma ScanMatchesExpected(st: Store)
    requires Wf(st)
    ensures Scan(st, SampleStartTimes(st), []) == Success(Expected(View(st), SampleStartTimes(st)))
  {
    assert View(st)[..0] == [];
    ScanIsWalk(st);
    WalkMatchesExpected(SampleStartTimes(st), View(st), 0);
  }
}
