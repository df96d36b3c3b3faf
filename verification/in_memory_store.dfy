/** The list-backed test store `InMemoryInstallationMeasurements`: packets are
    kept in insertion order and every query goes through their keys. */
module InMemoryStore {
  import opened Bytes
  import opened Packets
  import opened PacketSerDe

  datatype Store = Store(installationId: Int64, packets: seq<Report>)

  /** The key of a packet: its first report timestamp. */
  function Key(p: Report): Int64 {
    FirstReportTimestamp(p)
  }

  /** The constructor takes its own copy of the list; with value semantics a
      later change to the caller's list cannot reach the store. */
  function New(installationId: Int64, packets: seq<Report>): (st: Store)
    ensures st.installationId == installationId
    ensures st.packets == packets
    ensures SampleStartTimes(st) == seq(|packets|, i requires 0 <= i < |packets| => Key(packets[i]))
  {
    Store(installationId, packets)
  }

  /** The keys of the packets, in insertion order (not sorted in general). */
  function SampleStartTimes(st: Store): (keys: seq<Int64>)
    ensures |keys| == |st.packets|
  {
    seq(|st.packets|, i requires 0 <= i < |st.packets| => Key(st.packets[i]))
  }

  /** `append` adds at the end, without looking for an equal key. */
  function Append(st: Store, p: Report): (r: Store)
    ensures r.installationId == st.installationId
    ensures SampleStartTimes(r) == SampleStartTimes(st) + [Key(p)]
    ensures |r.packets| == |st.packets| + 1
  {
    var r := st.(packets := st.packets + [p]);
    assert SampleStartTimes(r) == SampleStartTimes(st) + [Key(p)];
    r
  }

  /** The packets whose key is (`inRange`) or is not (`!inRange`) among `range`,
      in store order. */
  function Keep(ps: seq<Report>, range: seq<Int64>, inRange: bool): (r: seq<Report>)
    ensures |r| <= |ps|
  {
    if |ps| == 0 then []
    else
      var rest := Keep(ps[1..], range, inRange);
      if (Key(ps[0]) in range) == inRange then [ps[0]] + rest else rest
  }

  /** A packet survives the selection exactly when it is in the store and
      its key's membership in `range` is `inRange`. */
  lemma {:induction false} KeepMembers(ps: seq<Report>, range: seq<Int64>, inRange: bool)
    ensures forall p :: p in Keep(ps, range, inRange) <==> p in ps && (Key(p) in range) == inRange
  {
    if |ps| > 0 {
      KeepMembers(ps[1..], range, inRange);
      assert forall p :: p in ps <==> p == ps[0] || p in ps[1..];
    }
  }

  /** `get`: every packet whose key is requested, in store order; requested
      keys that are absent are skipped silently. */
  function Get(st: Store, range: seq<Int64>): (r: seq<Report>)
    ensures forall p :: p in r <==> p in st.packets && Key(p) in range
  {
    KeepMembers(st.packets, range, true);
    Keep(st.packets, range, true)
  }

  /** `delete`: removes exactly the packets whose key is listed. */
  function Delete(st: Store, range: seq<Int64>): (r: Store)
    ensures r.installationId == st.installationId
    ensures |r.packets| <= |st.packets|
    ensures forall p :: p in r.packets <==> p in st.packets && Key(p) !in range
  {
    KeepMembers(st.packets, range, false);
    st.(packets := Keep(st.packets, range, false))
  }

  /** Selection distributes over concatenation: the survivors keep their order. */
  lemma {:induction false} KeepAppend(a: seq<Report>, b: seq<Report>, range: seq<Int64>, inRange: bool)
    ensures Keep(a + b, range, inRange) == Keep(a, range, inRange) + Keep(b, range, inRange)
  {
    if |a| > 0 {
      var ab := a + b;
      assert ab[0] == a[0];
      assert ab[1..] == a[1..] + b;
      KeepAppend(a[1..], b, range, inRange);
      var x := Keep(a[1..], range, inRange);
      var y := Keep(b, range, inRange);
      assert [a[0]] + (x + y) == ([a[0]] + x) + y;
    } else {
      assert a + b == b;
    }
  }

  /** Selection keeps a run whose every key qualifies, and drops a run whose
      every key does not. */
  lemma {:induction false} KeepUniform(ps: seq<Report>, range: seq<Int64>, inRange: bool)
    ensures (forall i :: 0 <= i < |ps| ==> (Key(ps[i]) in range) == inRange) ==> Keep(ps, range, inRange) == ps
    ensures (forall i :: 0 <= i < |ps| ==> (Key(ps[i]) in range) != inRange) ==> Keep(ps, range, inRange) == []
  {
    if |ps| > 0 {
      KeepUniform(ps[1..], range, inRange);
      assert forall i :: 1 <= i < |ps| ==> ps[1..][i - 1] == ps[i];
      assert ps == [ps[0]] + ps[1..];
    }
  }

  /** `get` and `delete` with the same range split the store between them. */
  lemma {:induction false} GetDeletePartition(st: Store, range: seq<Int64>)
    ensures multiset(Get(st, range)) + multiset(Delete(st, range).packets) == multiset(st.packets)
  {
    KeepPartition(st.packets, range);
  }

  lemma {:induction false} KeepPartition(ps: seq<Report>, range: seq<Int64>)
    ensures multiset(Keep(ps, range, true)) + multiset(Keep(ps, range, false)) == multiset(ps)
  {
    if |ps| > 0 {
      KeepPartition(ps[1..], range);
      assert ps == [ps[0]] + ps[1..];
    }
  }

  /** After `delete(r)`, `get(r)` is empty and no key of `r` is left. */
  lemma DeleteThenGet(st: Store, range: seq<Int64>)
    ensures Get(Delete(st, range), range) == []
    ensures forall k :: k in range ==> k !in SampleStartTimes(Delete(st, range))
  {
    var after := Delete(st, range).packets;
    assert forall i :: 0 <= i < |after| ==> after[i] in after;
    KeepUniform(after, range, true);
  }

  /** Insertion order is key order only when the appends were ascending. */
  lemma AppendKeepsAscending(st: Store, p: Report)
    ensures Ascending(SampleStartTimes(Append(st, p))) <==>
      Ascending(SampleStartTimes(st)) && (|st.packets| == 0 || SampleStartTimes(st)[|st.packets| - 1] <= Key(p))
  {
    var keys := SampleStartTimes(st);
    var keys' := SampleStartTimes(Append(st, p));
    assert forall i :: 0 <= i < |keys| ==> keys'[i] == keys[i];
    assert keys'[|keys|] == Key(p);
    if Ascending(keys) && (|keys| == 0 || keys[|keys| - 1] <= Key(p)) {
      forall i, j | 0 <= i < j < |keys'| ensures keys'[i] <= keys'[j] {
        if j == |keys| && i < |keys| {
          assert keys[i] <= keys[|keys| - 1];
        }
      }
    }
  }

  /** Selecting a key that only one packet has gives that packet alone. */
  lemma {:induction false} KeepOnly(ps: seq<Report>, k: Int64, i: nat)
    requires i < |ps| && Key(ps[i]) == k
    requires forall j :: 0 <= j < |ps| && j != i ==> Key(ps[j]) != k
    ensures Keep(ps, [k], true) == [ps[i]]
  {
    var tail := ps[1..];
    if i == 0 {
      forall j | 0 <= j < |tail| ensures (Key(tail[j]) in [k]) != true {
        assert tail[j] == ps[j + 1];
      }
      KeepUniform(tail, [k], true);
    } else {
      forall j | 0 <= j < |tail| && j != i - 1 ensures Key(tail[j]) != k {
        assert tail[j] == ps[j + 1];
      }
      KeepOnly(tail, k, i - 1);
    }
  }

  /** Deleting a range that holds exactly the keys of the first `n` packets
      leaves the rest in order. */
  lemma {:induction false} KeepDropsPrefix(ps: seq<Report>, range: seq<Int64>, n: nat)
    requires n <= |ps|
    requires forall j :: 0 <= j < |ps| ==> (Key(ps[j]) in range <==> j < n)
    ensures Keep(ps, range, false) == ps[n..]
  {
    if n == 0 {
      KeepUniform(ps, range, false);
    } else {
      var tail := ps[1..];
      forall j | 0 <= j < |tail| ensures Key(tail[j]) in range <==> j < n - 1 {
        assert tail[j] == ps[j + 1];
      }
      KeepDropsPrefix(tail, range, n - 1);
    }
  }

  /** A key is listed exactly when some packet has it. */
  lemma KeysOfPackets(st: Store)
    ensures forall t :: t in SampleStartTimes(st) <==> exists p :: p in st.packets && Key(p) == t
  {
    var keys := SampleStartTimes(st);
    forall t | t in keys ensures exists p :: p in st.packets && Key(p) == t {
      var i :| 0 <= i < |keys| && keys[i] == t;
      assert st.packets[i] in st.packets;
    }
    forall t | exists p :: p in st.packets && Key(p) == t ensures t in keys {
      var p :| p in st.packets && Key(p) == t;
      var i :| 0 <= i < |st.packets| && st.packets[i] == p;
      assert keys[i] == t;
    }
  }

  /** Deleting a range that holds a present key removes at least one packet. */
  lemma DeleteRemovesPresent(st: Store, range: seq<Int64>, t: Int64)
    requires t in SampleStartTimes(st) && t in range
    ensures |Delete(st, range).packets| < |st.packets|
  {
    KeysOfPackets(st);
    var p :| p in st.packets && Key(p) == t;
    KeepDrops(st.packets, range, p);
  }

  lemma {:induction false} KeepDrops(ps: seq<Report>, range: seq<Int64>, p: Report)
    requires p in ps && Key(p) in range
    ensures |Keep(ps, range, false)| < |ps|
  {
    if ps[0] != p {
      KeepDrops(ps[1..], range, p);
    }
  }

  predicate Ascending(keys: seq<Int64>) {
    forall i, j :: 0 <= i < j < |keys| ==> keys[i] <= keys[j]
  }
}
