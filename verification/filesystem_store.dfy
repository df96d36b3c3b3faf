/** `FilesystemInstallationMeasurements`: one file per report under
    `<base>/<userId>/<installationId>/`, plus a sorted in-memory list of keys.
    The installation directory is modelled as a map from file name to the
    packet stored in it; `Files.walk` order is an explicit listing. */
module FilesystemStore {
  import opened Wrappers
  import opened Bytes
  import opened Decimal
  import opened Packets
  import opened PacketSerDe

  const ReportsFileSuffix: string := "tix-report"
  const ReportsFileExtension: string := "json"

  /** `format(REPORTS_FILE_NAME_TEMPLATE, t)`, i.e. "tix-report-%d.json", in a
      default locale with ASCII digits and an ASCII minus sign. */
  function ReportFileName(t: int): string {
    ReportsFileSuffix + "-" + Format(t) + "." + ReportsFileExtension
  }

  /** The characters Java's `.` does not match outside DOTALL mode. */
  predicate LineTerminator(c: char) {
    c == '\n' || c == '\r' || c == '\U{0085}' || c == '\U{2028}' || c == '\U{2029}'
  }

  /** Group 1 of `REPORTS_TIMESTAMP_CAPTURE` when the whole name matches
      `tix-report-(\d+).json`. The dot in that pattern is not escaped, so it
      matches any one character other than a line terminator. The split is
      unique: the digits run from offset 11 to five characters before the end. */
  function CaptureTimestamp(name: string): (digits: Option<string>)
    ensures digits.Some? ==> |digits.value| >= 1 && AllDigits(digits.value)
  {
    if |name| >= 11 + 1 + 1 + 4
      && name[..11] == "tix-report-"
      && name[|name| - 4..] == "json"
      && !LineTerminator(name[|name| - 5])
      && AllDigits(name[11..|name| - 5])
    then Some(name[11..|name| - 5])
    else None
  }

  /** The key a file name stands for: None when the name does not match,
      otherwise the outcome of `Long.parseLong` on the captured digits. */
  function ParseReportName(name: string): Option<Result<Int64, NumberFormatError>> {
    match CaptureTimestamp(name)
    case None => None
    case Some(digits) => Some(ParseLong(digits))
  }

  lemma ReportFileNameShape(t: int)
    ensures var name := ReportFileName(t);
      |name| == 11 + |Format(t)| + 5 && name[..11] == "tix-report-" && name[11..|name| - 5] == Format(t)
      && name[|name| - 5] == '.' && name[|name| - 4..] == "json"
  {
    var f := Format(t);
    var name := ReportFileName(t);
    var head := "tix-report-";
    assert name == head + f + ".json";
    Framed(head, f, ".json");
    var back := name[|head| + |f|..];
    assert name[|name| - 5] == back[0];
    assert name[|name| - 4..] == back[1..];
  }

  /** The three parts of a concatenation are recovered by slicing. */
  lemma Framed(a: string, m: string, b: string)
    ensures var s := a + m + b;
      s[..|a|] == a && s[|a|..|a| + |m|] == m && s[|a| + |m|..] == b
  {
    var s := a + m + b;
    assert s[..|a|] == a;
    assert s[|a|..|a| + |m|] == m;
  }

  /** Every non-negative key is recovered from its file name. */
  lemma ReportFileNameRoundTrip(t: Int64)
    requires t >= 0
    ensures ParseReportName(ReportFileName(t)) == Some(Success(t))
  {
    ReportFileNameShape(t);
    ParseLongFormat(t);
  }

  /** A negative key's name, such as "tix-report--5.json", does not match. */
  lemma NegativeNamesDoNotMatch(t: int)
    requires t < 0
    ensures ParseReportName(ReportFileName(t)) == None
  {
    ReportFileNameShape(t);
    var name := ReportFileName(t);
    assert name[11..|name| - 5][0] == '-';
  }

  /** Different keys get different file names. */
  lemma ReportFileNameInjective(a: int, b: int)
    requires ReportFileName(a) == ReportFileName(b)
    ensures a == b
  {
    ReportFileNameShape(a);
    ReportFileNameShape(b);
    FormatInjective(a, b);
  }

  /** Names the template never produces still parse: leading zeros, and any
      character in place of the dot. */
  lemma ForeignNamesParse()
    ensures ParseReportName("tix-report-007.json") == Some(Success(7))
    ensures ParseReportName("tix-report-7_json") == Some(Success(7))
  {
    ParseLongNotInjective();
    var zeros := "tix-report-007.json";
    assert |zeros| == 19 && zeros[..11] == "tix-report-" && zeros[15..] == "json";
    assert zeros[11..14] == "007" && AllDigits("007");
    assert !LineTerminator(zeros[14]);
    assert CaptureTimestamp(zeros) == Some("007");
    var underscore := "tix-report-7_json";
    assert |underscore| == 17 && underscore[..11] == "tix-report-" && underscore[13..] == "json";
    assert underscore[11..12] == "7" && AllDigits("7");
    assert !LineTerminator(underscore[12]);
    assert CaptureTimestamp(underscore) == Some("7");
  }

  predicate Sorted(s: seq<Int64>) {
    forall i, j :: 0 <= i < j < |s| ==> s[i] <= s[j]
  }

  predicate StrictlySorted(s: seq<Int64>) {
    forall i, j :: 0 <= i < j < |s| ==> s[i] < s[j]
  }

  function Insert(x: Int64, s: seq<Int64>): (r: seq<Int64>)
    requires Sorted(s)
    ensures Sorted(r)
    ensures multiset(r) == multiset(s) + multiset{x}
    ensures forall k :: 0 <= k < |r| ==> r[k] == x || r[k] in s
  {
    if |s| == 0 then [x]
    else if x <= s[0] then
      SortedCons(x, s);
      [x] + s
    else
      SortedTail(s);
      var rest := Insert(x, s[1..]);
      InsertBehind(x, s, rest);
      [s[0]] + rest
  }

  lemma SortedTail(s: seq<Int64>)
    requires Sorted(s) && |s| > 0
    ensures Sorted(s[1..])
  {
    forall i, j | 0 <= i < j < |s| - 1 ensures s[1..][i] <= s[1..][j] {
      assert s[1..][i] == s[i + 1] && s[1..][j] == s[j + 1];
    }
  }

  /** The head of a sorted list that is smaller than `x` stays in front of
      `x` inserted into the rest. */
  lemma InsertBehind(x: Int64, s: seq<Int64>, rest: seq<Int64>)
    requires Sorted(s) && |s| > 0 && s[0] < x && Sorted(rest)
    requires forall k :: 0 <= k < |rest| ==> rest[k] == x || rest[k] in s[1..]
    requires multiset(rest) == multiset(s[1..]) + multiset{x}
    ensures Sorted([s[0]] + rest)
    ensures forall k :: 0 <= k < |[s[0]] + rest| ==> ([s[0]] + rest)[k] == x || ([s[0]] + rest)[k] in s
    ensures multiset([s[0]] + rest) == multiset(s) + multiset{x}
  {
    var tail := s[1..];
    assert s == [s[0]] + tail;
    forall k | 0 <= k < |rest| ensures s[0] <= rest[k] && (rest[k] == x || rest[k] in s) {
      if rest[k] != x {
        var j :| 0 <= j < |tail| && tail[j] == rest[k];
        assert tail[j] == s[j + 1];
      }
    }
    SortedCons(s[0], rest);
  }

  /** A sorted list stays sorted under a head no larger than any element. */
  lemma SortedCons(x: Int64, s: seq<Int64>)
    requires Sorted(s) && forall k :: 0 <= k < |s| ==> x <= s[k]
    ensures Sorted([x] + s)
  {
    var r := [x] + s;
    forall i, j | 0 <= i < j < |r| ensures r[i] <= r[j] {
      assert r[j] == s[j - 1];
      if i > 0 {
        assert r[i] == s[i - 1];
      }
    }
  }

  /** `List.sort(Comparator.naturalOrder())` on longs. */
  function Sort(s: seq<Int64>): (r: seq<Int64>)
    ensures Sorted(r)
    ensures multiset(r) == multiset(s)
  {
    if |s| == 0 then []
    else
      assert s == s[..|s| - 1] + [s[|s| - 1]];
      Insert(s[|s| - 1], Sort(s[..|s| - 1]))
  }

  datatype Store = Store(userId: Int64, installationId: Int64, samples: seq<Int64>, files: map<string, Report>)

  /** What the engine relies on: keys strictly ascending, each with its file. */
  predicate Consistent(st: Store) {
    StrictlySorted(st.samples) && forall t :: t in st.samples ==> ReportFileName(t) in st.files
  }

  /** An existing installation directory: the names `Files.walk` lists, in its
      order, and the packet each file holds. */
  datatype Directory = Directory(listing: seq<string>, files: map<string, Report>)

  predicate ListingComplete(d: Directory) {
    && (forall i, j :: 0 <= i < j < |d.listing| ==> d.listing[i] != d.listing[j])
    && (forall name :: name in d.files ==> name in d.listing)
    && (forall name :: name in d.listing ==> name in d.files)
  }

  /** The positions from `from` on at which `parse` gives a value, in
      ascending order. */
  function Positions<T, R>(s: seq<T>, parse: T -> Option<R>, from: nat): (ps: seq<nat>)
    requires from <= |s|
    ensures forall k :: 0 <= k < |ps| ==> from <= ps[k] < |s| && parse(s[ps[k]]).Some?
    ensures forall k, l :: 0 <= k < l < |ps| ==> ps[k] < ps[l]
    ensures forall i :: from <= i < |s| && parse(s[i]).Some? ==> i in ps
    decreases |s| - from
  {
    if from == |s| then []
    else
      var rest := Positions(s, parse, from + 1);
      if parse(s[from]).Some? then [from] + rest else rest
  }

  /** The values `parse` gives along `s` from `from` on, one per position
      where it gives one and in that order (see `ParseEachPositions`); the
      first failure met is the result. */
  function ParseEach<T, V, E>(s: seq<T>, parse: T -> Option<Result<V, E>>, from: nat): (r: Result<seq<V>, E>)
    requires from <= |s|
    ensures r.Failure? <==> FailsFrom(s, parse, from)
    decreases |s| - from
  {
    if from == |s| then Success([])
    else
      var rest := ParseEach(s, parse, from + 1);
      FailsFromStep(s, parse, from);
      match parse(s[from])
      case None => rest
      case Some(Failure(e)) => Failure(e)
      case Some(Success(t)) =>
        if rest.Failure? then rest else Success([t] + rest.value)
  }

  /** A successful `ParseEach` holds the value parsed at each position where
      `parse` gives one, in order. */
  lemma {:induction false} ParseEachPositions<T, V, E>(s: seq<T>, parse: T -> Option<Result<V, E>>, from: nat)
    requires from <= |s| && ParseEach(s, parse, from).Success?
    ensures var ps := Positions(s, parse, from);
      var keys := ParseEach(s, parse, from).value;
      && |keys| == |ps|
      && forall k :: 0 <= k < |ps| ==> parse(s[ps[k]]) == Some(Success(keys[k]))
    decreases |s| - from
  {
    if from < |s| {
      ParseEachPositions(s, parse, from + 1);
      var ps := Positions(s, parse, from + 1);
      var rest := ParseEach(s, parse, from + 1).value;
      var p := parse(s[from]);
      if p.None? {
        assert Positions(s, parse, from) == ps;
        assert ParseEach(s, parse, from).value == rest;
      } else {
        var ps' := [from] + ps;
        var keys := [p.value.value] + rest;
        assert Positions(s, parse, from) == ps';
        assert ParseEach(s, parse, from).value == keys;
        forall k | 0 <= k < |ps'| ensures parse(s[ps'[k]]) == Some(Success(keys[k])) {
          if k > 0 {
            assert ps'[k] == ps[k - 1] && keys[k] == rest[k - 1];
          }
        }
      }
    }
  }

  /** `parse` fails at some position from `from` on. */
  predicate FailsFrom<T, V, E>(s: seq<T>, parse: T -> Option<Result<V, E>>, from: nat) {
    exists i :: from <= i < |s| && parse(s[i]).Some? && parse(s[i]).value.Failure?
  }

  lemma FailsFromStep<T, V, E>(s: seq<T>, parse: T -> Option<Result<V, E>>, from: nat)
    requires from < |s|
    ensures FailsFrom(s, parse, from) <==>
      (parse(s[from]).Some? && parse(s[from]).value.Failure?) || FailsFrom(s, parse, from + 1)
  {
  }

  /** The positions of the listing whose names match the pattern. */
  function MatchingPositions(listing: seq<string>): (ps: seq<nat>)
    ensures forall k :: 0 <= k < |ps| ==> ps[k] < |listing| && ParseReportName(listing[ps[k]]).Some?
    ensures forall k, l :: 0 <= k < l < |ps| ==> ps[k] < ps[l]
    ensures forall i :: 0 <= i < |listing| && ParseReportName(listing[i]).Some? ==> i in ps
  {
    Positions(listing, ParseReportName, 0)
  }

  /** The keys of the matching names, one per name and in listing order, so
      that two names for one key (such as "tix-report-7.json" and
      "tix-report-007.json") give that key twice; the first name whose digits
      overflow a long makes the constructor throw. */
  function ParsedSamples(listing: seq<string>): (r: Result<seq<Int64>, NumberFormatError>)
    ensures r.Failure? <==> exists i :: 0 <= i < |listing| && ParseReportName(listing[i]).Some? && ParseReportName(listing[i]).value.Failure?
    ensures r.Success? ==> var ps := MatchingPositions(listing);
      && |r.value| == |ps|
      && forall k :: 0 <= k < |ps| ==> ParseReportName(listing[ps[k]]) == Some(Success(r.value[k]))
    ensures r.Success? ==> forall t :: t in r.value <==> exists i :: 0 <= i < |listing| && ParseReportName(listing[i]) == Some(Success(t))
  {
    var r := ParseEach(listing, ParseReportName, 0);
    if r.Success? then
      ParseEachPositions(listing, ParseReportName, 0);
      ParsedMembers(listing, r.value);
      r
    else r
  }

  /** A key is parsed exactly when some matching name parses to it. */
  lemma ParsedMembers(listing: seq<string>, keys: seq<Int64>)
    requires var ps := MatchingPositions(listing);
      && |keys| == |ps|
      && forall k :: 0 <= k < |ps| ==> ParseReportName(listing[ps[k]]) == Some(Success(keys[k]))
    ensures forall t :: t in keys <==> exists i :: 0 <= i < |listing| && ParseReportName(listing[i]) == Some(Success(t))
  {
    var ps := MatchingPositions(listing);
    forall t | t in keys ensures exists i :: 0 <= i < |listing| && ParseReportName(listing[i]) == Some(Success(t)) {
      var k :| 0 <= k < |keys| && keys[k] == t;
      assert ParseReportName(listing[ps[k]]) == Some(Success(t));
    }
    forall t | exists i :: 0 <= i < |listing| && ParseReportName(listing[i]) == Some(Success(t)) ensures t in keys {
      var i :| 0 <= i < |listing| && ParseReportName(listing[i]) == Some(Success(t));
      var k :| 0 <= k < |ps| && ps[k] == i;
      assert keys[k] == t;
    }
  }

  /** The constructor: an absent directory gives an empty store; otherwise the
      keys of all matching names, sorted ascending. */
  function New(userId: Int64, installationId: Int64, dir: Option<Directory>): (r: Result<Store, NumberFormatError>)
    ensures dir.None? ==> r == Success(Store(userId, installationId, [], map[]))
    ensures r.Success? ==> r.value.userId == userId && r.value.installationId == installationId
    ensures r.Success? ==> Sorted(r.value.samples)
    ensures r.Success? && dir.Some? ==> r.value.files == dir.value.files
    ensures dir.Some? ==> (r.Success? <==> ParsedSamples(dir.value.listing).Success?)
    ensures r.Success? && dir.Some? ==> multiset(r.value.samples) == multiset(ParsedSamples(dir.value.listing).value)
  {
    match dir
    case None => Success(Store(userId, installationId, [], map[]))
    case Some(d) =>
      match ParsedSamples(d.listing)
      case Failure(e) => Failure(e)
      case Success(keys) =>
        Success(Store(userId, installationId, Sort(keys), d.files))
  }

  /** The keys of a store read from a directory are exactly the keys parsed
      from the matching names of its listing. */
  lemma NewKeys(userId: Int64, installationId: Int64, d: Directory, t: Int64)
    requires New(userId, installationId, Some(d)).Success?
    ensures t in New(userId, installationId, Some(d)).value.samples <==>
      exists i :: 0 <= i < |d.listing| && ParseReportName(d.listing[i]) == Some(Success(t))
  {
    var keys := ParsedSamples(d.listing).value;
    var samples := Sort(keys);
    assert New(userId, installationId, Some(d)).value.samples == samples;
    assert t in samples <==> t in multiset(samples);
    assert t in keys <==> t in multiset(keys);
  }

  /** A name the template could have written: when it matches the pattern,
      it is the file name of the key it parses to. */
  predicate Canonical(name: string) {
    match ParseReportName(name)
    case None => true
    case Some(Failure(_)) => false
    case Some(Success(t)) => name == ReportFileName(t)
  }

  /** A directory whose matching names are all canonical loads a store the
      engine can work on: one key per file, ascending, each with its file. */
  lemma NewConsistent(userId: Int64, installationId: Int64, d: Directory)
    requires ListingComplete(d)
    requires forall i :: 0 <= i < |d.listing| ==> Canonical(d.listing[i])
    ensures New(userId, installationId, Some(d)).Success?
    ensures Consistent(New(userId, installationId, Some(d)).value)
  {
    var keys := ParsedSamples(d.listing).value;
    var ps := MatchingPositions(d.listing);
    var name := (t: Int64) => ReportFileName(t);
    forall k | 0 <= k < |ps| ensures d.listing[ps[k]] == name(keys[k]) {
      CanonicalKey(d.listing[ps[k]], keys[k]);
    }
    NamedKeys(d.listing, d.files, ps, keys, name);
    var samples := New(userId, installationId, Some(d)).value.samples;
    forall v ensures multiset(samples)[v] <= 1 {
      DistinctCounts(keys, v);
    }
    SortedDistinctIsStrict(samples);
    forall t | t in samples ensures name(t) in d.files {
      assert t in multiset(samples);
    }
  }

  /** A canonical name is the file name of the key it parses to. */
  lemma CanonicalKey(name: string, t: Int64)
    requires Canonical(name) && ParseReportName(name) == Some(Success(t))
    ensures name == ReportFileName(t)
  {
  }

  /** Keys read at increasing positions of a listing without repeats, each
      from the name it owns, are distinct and each names a listed file. */
  lemma NamedKeys<K>(listing: seq<string>, files: map<string, Report>, ps: seq<nat>, keys: seq<K>, name: K -> string)
    requires forall i, j :: 0 <= i < j < |listing| ==> listing[i] != listing[j]
    requires forall n :: n in listing ==> n in files
    requires |ps| == |keys|
    requires forall k :: 0 <= k < |ps| ==> ps[k] < |listing| && listing[ps[k]] == name(keys[k])
    requires forall k, l :: 0 <= k < l < |ps| ==> ps[k] < ps[l]
    ensures forall a, b :: 0 <= a < b < |keys| ==> keys[a] != keys[b]
    ensures forall t :: t in keys ==> name(t) in files
  {
    forall t | t in keys ensures name(t) in files {
      var k :| 0 <= k < |keys| && keys[k] == t;
      assert listing[ps[k]] in listing;
    }
  }

  /** A list without repeats holds each value at most once. */
  lemma {:induction false} DistinctCounts(s: seq<Int64>, v: Int64)
    requires forall a, b :: 0 <= a < b < |s| ==> s[a] != s[b]
    ensures multiset(s)[v] <= 1
  {
    if |s| > 0 {
      var tail := s[1..];
      assert forall a, b :: 0 <= a < b < |tail| ==> tail[a] == s[a + 1] && tail[b] == s[b + 1];
      DistinctCounts(tail, v);
      assert s == [s[0]] + tail;
      if s[0] == v {
        assert forall k :: 0 <= k < |tail| ==> tail[k] == s[k + 1];
        assert v !in tail;
      }
    }
  }

  /** A name with leading zeros loads a key whose canonical file is missing,
      so the store is not consistent. */
  lemma LeadingZerosInconsistent(userId: Int64, installationId: Int64, r: Report)
    ensures var d := Directory(["tix-report-007.json"], map["tix-report-007.json" := r]);
      && ListingComplete(d)
      && New(userId, installationId, Some(d)).Success?
      && New(userId, installationId, Some(d)).value.samples == [7]
      && !Consistent(New(userId, installationId, Some(d)).value)
  {
    var d := Directory(["tix-report-007.json"], map["tix-report-007.json" := r]);
    ForeignNamesParse();
    var ps := MatchingPositions(d.listing);
    assert 0 in ps;
    assert ParsedSamples(d.listing).value == [7];
    var samples := New(userId, installationId, Some(d)).value.samples;
    assert multiset(samples) == multiset{7};
    assert 7 in multiset(samples);
    ReportFileNameShape(7);
    assert |Format(7)| == 1;
  }

  /** `append`: writes the file for the packet's key unless it already exists,
      keeping the key list sorted. */
  function Append(st: Store, p: Report): (r: Store)
    ensures r.userId == st.userId && r.installationId == st.installationId
    ensures ReportFileName(FirstReportTimestamp(p)) in st.files ==> r == st
    ensures ReportFileName(FirstReportTimestamp(p)) !in st.files ==>
      && r.files == st.files[ReportFileName(FirstReportTimestamp(p)) := p]
      && multiset(r.samples) == multiset(st.samples) + multiset{FirstReportTimestamp(p)}
    ensures Sorted(st.samples) ==> Sorted(r.samples)
  {
    var key := FirstReportTimestamp(p);
    var name := ReportFileName(key);
    if name in st.files then st
    else st.(files := st.files[name := p], samples := Sort(st.samples + [key]))
  }

  /** `append` of the same packet twice has the effect of appending it once. */
  lemma AppendIdempotent(st: Store, p: Report)
    ensures Append(Append(st, p), p) == Append(st, p)
  {
  }

  /** `append` keeps the engine's view consistent: the new key is not yet listed. */
  lemma AppendConsistent(st: Store, p: Report)
    requires Consistent(st)
    ensures Consistent(Append(st, p))
  {
    var key := FirstReportTimestamp(p);
    var r := Append(st, p);
    if ReportFileName(key) !in st.files {
      assert key !in st.samples;
      forall v ensures multiset(r.samples)[v] <= 1 {
        StrictlySortedCounts(st.samples, v);
      }
      SortedDistinctIsStrict(r.samples);
      assert forall t :: t in r.samples <==> t in multiset(st.samples) + multiset{key};
    }
  }

  lemma SortedDistinctIsStrict(s: seq<Int64>)
    requires Sorted(s)
    requires forall v :: multiset(s)[v] <= 1
    ensures StrictlySorted(s)
  {
    forall i, j | 0 <= i < j < |s| ensures s[i] < s[j] {
      if s[i] == s[j] {
        CountTwice(s, i, j);
        assert false;
      }
    }
  }

  lemma CountTwice(s: seq<Int64>, i: nat, j: nat)
    requires i < j < |s| && s[i] == s[j]
    ensures multiset(s)[s[i]] >= 2
  {
    assert s == s[..i] + [s[i]] + s[i + 1..j] + [s[j]] + s[j + 1..];
  }

  lemma {:induction false} StrictlySortedCounts(s: seq<Int64>, x: Int64)
    requires StrictlySorted(s)
    ensures multiset(s)[x] <= 1
  {
    if |s| > 0 {
      StrictlySortedCounts(s[1..], x);
      assert s == [s[0]] + s[1..];
      if s[0] == x {
        assert x !in s[1..];
      }
    }
  }

  /** `get`: reads the file of every requested key, in requested order; the
      first missing file makes the read fail. */
  function Get(st: Store, range: seq<Int64>): (r: Result<seq<Report>, StoreError>)
    ensures r.Success? <==> forall t :: t in range ==> ReportFileName(t) in st.files
    ensures r.Success? ==> |r.value| == |range|
    ensures r.Success? ==> forall i :: 0 <= i < |range| ==> r.value[i] == st.files[ReportFileName(range[i])]
    ensures r.Failure? ==> exists i :: (0 <= i < |range| && r.error == NoSuchFile(ReportFileName(range[i]))
      && ReportFileName(range[i]) !in st.files
      && forall j :: 0 <= j < i ==> ReportFileName(range[j]) in st.files)
  {
    var name := (t: Int64) => ReportFileName(t);
    var names := seq(|range|, i requires 0 <= i < |range| => name(range[i]));
    ReadNamed(st.files, name, range, names);
    ReadAll(st.files, names)
  }

  /** `ReadAll` over the names of a list of keys, stated in terms of the keys. */
  lemma ReadNamed<K>(files: map<string, Report>, name: K -> string, keys: seq<K>, names: seq<string>)
    requires |names| == |keys| && forall i :: 0 <= i < |keys| ==> names[i] == name(keys[i])
    ensures ReadAll(files, names).Success? <==> forall t :: t in keys ==> name(t) in files
    ensures ReadAll(files, names).Failure? ==> exists i :: (0 <= i < |keys|
      && ReadAll(files, names).error == NoSuchFile(name(keys[i])) && name(keys[i]) !in files
      && forall j :: 0 <= j < i ==> name(keys[j]) in files)
  {
    forall t | t in keys ensures name(t) in names {
      var i :| 0 <= i < |keys| && keys[i] == t;
      assert names[i] == name(t);
    }
  }

  /** Reads the named files in order; the first missing one fails the read. */
  function ReadAll(files: map<string, Report>, names: seq<string>): (r: Result<seq<Report>, StoreError>)
    ensures r.Success? <==> forall name :: name in names ==> name in files
    ensures r.Success? ==> |r.value| == |names|
    ensures r.Success? ==> forall i :: 0 <= i < |names| ==> r.value[i] == files[names[i]]
    ensures r.Failure? ==> exists i :: (0 <= i < |names| && r.error == NoSuchFile(names[i]) && names[i] !in files
      && forall j :: 0 <= j < i ==> names[j] in files)
  {
    match FirstMissing(files, names, 0)
    case None => Success(seq(|names|, i requires 0 <= i < |names| => files[names[i]]))
    case Some(i) => Failure(NoSuchFile(names[i]))
  }

  /** The first name from position `from` on without a file, if any. */
  function FirstMissing(files: map<string, Report>, names: seq<string>, from: nat): (m: Option<nat>)
    requires from <= |names|
    requires forall j :: 0 <= j < from ==> names[j] in files
    ensures m.None? <==> forall name :: name in names ==> name in files
    ensures m.Some? ==> from <= m.value < |names| && names[m.value] !in files
    ensures m.Some? ==> forall j :: 0 <= j < m.value ==> names[j] in files
    decreases |names| - from
  {
    if from == |names| then None
    else if names[from] !in files then Some(from)
    else FirstMissing(files, names, from + 1)
  }

  /** `List.removeAll`: drops every occurrence of every listed key. */
  function RemoveAll(samples: seq<Int64>, range: seq<Int64>): (r: seq<Int64>)
    ensures |r| <= |samples|
  {
    if |samples| == 0 then []
    else
      var rest := RemoveAll(samples[1..], range);
      if samples[0] in range then rest else [samples[0]] + rest
  }

  /** A key survives `removeAll` exactly when it was present and not listed. */
  lemma {:induction false} RemoveAllMembers(samples: seq<Int64>, range: seq<Int64>)
    ensures forall t :: t in RemoveAll(samples, range) <==> t in samples && t !in range
  {
    if |samples| > 0 {
      RemoveAllMembers(samples[1..], range);
      assert forall t :: t in samples <==> t == samples[0] || t in samples[1..];
    }
  }

  /** Removing a range that holds a present key shortens the list. */
  lemma {:induction false} RemoveAllRemovesPresent(samples: seq<Int64>, range: seq<Int64>, t: Int64)
    requires t in samples && t in range
    ensures |RemoveAll(samples, range)| < |samples|
  {
    if samples[0] != t {
      RemoveAllRemovesPresent(samples[1..], range, t);
    }
  }

  /** `removeAll` keeps the survivors in their order. */
  lemma {:induction false} RemoveAllKeepsOrder(samples: seq<Int64>, range: seq<Int64>)
    ensures Sorted(samples) ==> Sorted(RemoveAll(samples, range))
    ensures StrictlySorted(samples) ==> StrictlySorted(RemoveAll(samples, range))
  {
    if |samples| > 0 {
      var tail := samples[1..];
      RemoveAllKeepsOrder(tail, range);
      RemoveAllMembers(tail, range);
      var rest := RemoveAll(tail, range);
      if samples[0] !in range {
        HeadBeforeSurvivors(samples, rest);
        if Sorted(samples) {
          SortedCons(samples[0], rest);
        }
        if StrictlySorted(samples) {
          StrictlySortedCons(samples[0], rest);
        }
      }
    }
  }

  /** Every survivor of the tail sits behind the head of the list. */
  lemma HeadBeforeSurvivors(samples: seq<Int64>, rest: seq<Int64>)
    requires |samples| > 0 && forall t :: t in rest ==> t in samples[1..]
    ensures Sorted(samples) ==> forall k :: 0 <= k < |rest| ==> samples[0] <= rest[k]
    ensures StrictlySorted(samples) ==> forall k :: 0 <= k < |rest| ==> samples[0] < rest[k]
  {
    var tail := samples[1..];
    forall k | 0 <= k < |rest| ensures exists j :: 1 <= j < |samples| && samples[j] == rest[k] {
      assert rest[k] in rest;
      var j :| 0 <= j < |tail| && tail[j] == rest[k];
      assert samples[j + 1] == rest[k];
    }
  }

  /** A strictly ascending list stays so under a smaller head. */
  lemma StrictlySortedCons(x: Int64, s: seq<Int64>)
    requires StrictlySorted(s) && forall k :: 0 <= k < |s| ==> x < s[k]
    ensures StrictlySorted([x] + s)
  {
    var r := [x] + s;
    forall i, j | 0 <= i < j < |r| ensures r[i] < r[j] {
      assert r[j] == s[j - 1];
      if i > 0 {
        assert r[i] == s[i - 1];
      }
    }
  }

  /** `delete`: removes the files and keys of every listed key; absent keys
      are ignored and nothing else changes. */
  function Delete(st: Store, range: seq<Int64>): (r: Store)
    ensures r.userId == st.userId && r.installationId == st.installationId
    ensures |r.samples| <= |st.samples|
    ensures forall t :: t in r.samples <==> t in st.samples && t !in range
    ensures forall t :: t in range ==> ReportFileName(t) !in r.files
    ensures forall name :: name in st.files && (forall t :: t in range ==> name != ReportFileName(t)) ==>
      name in r.files && r.files[name] == st.files[name]
    ensures forall name :: name in r.files ==> name in st.files && r.files[name] == st.files[name]
    ensures Sorted(st.samples) ==> Sorted(r.samples)
  {
    var names := set t | t in range :: ReportFileName(t);
    RemoveAllMembers(st.samples, range);
    RemoveAllKeepsOrder(st.samples, range);
    st.(files := st.files - names, samples := RemoveAll(st.samples, range))
  }

  /** Reading a key back after appending its packet gives that packet. */
  lemma GetAfterAppend(st: Store, p: Report)
    requires ReportFileName(FirstReportTimestamp(p)) !in st.files
    ensures Get(Append(st, p), [FirstReportTimestamp(p)]) == Success([p])
  {
    var name := ReportFileName(FirstReportTimestamp(p));
    GetOne(Append(st, p), FirstReportTimestamp(p));
  }

  lemma GetOne(st: Store, t: Int64)
    requires ReportFileName(t) in st.files
    ensures Get(st, [t]) == Success([st.files[ReportFileName(t)]])
  {
    var r := Get(st, [t]);
    assert t in [t];
    assert r.value == [st.files[ReportFileName(t)]];
  }

  /** Every key of a consistent store reads back as exactly one packet. */
  lemma GetSample(st: Store, i: nat)
    requires Consistent(st) && i < |st.samples|
    ensures Get(st, [st.samples[i]]) == Success([st.files[ReportFileName(st.samples[i])]])
  {
    assert st.samples[i] in st.samples;
    GetOne(st, st.samples[i]);
  }

  /** Deleting the first `n` keys of a consistent store leaves exactly the
      remaining keys, still consistent, with their files untouched. */
  lemma DeletePrefix(st: Store, n: nat)
    requires Consistent(st) && n <= |st.samples|
    ensures var r := Delete(st, st.samples[..n]);
      && r.samples == st.samples[n..]
      && Consistent(r)
      && forall name :: name in r.files ==> name in st.files && r.files[name] == st.files[name]
  {
    var range := st.samples[..n];
    RemoveAllPrefix(st.samples, n);
    var r := Delete(st, range);
    forall t | t in r.samples ensures ReportFileName(t) in r.files {
      forall u | u in range ensures ReportFileName(t) != ReportFileName(u) {
        if ReportFileName(t) == ReportFileName(u) {
          ReportFileNameInjective(t, u);
        }
      }
    }
  }

  lemma {:induction false} RemoveAllPrefix(s: seq<Int64>, n: nat)
    requires StrictlySorted(s) && n <= |s|
    ensures RemoveAll(s, s[..n]) == s[n..]
  {
    RemoveAllSuffix(s, s[..n], n);
  }

  lemma {:induction false} RemoveAllSuffix(s: seq<Int64>, range: seq<Int64>, k: nat)
    requires StrictlySorted(s) && k <= |s|
    requires forall i :: 0 <= i < |s| ==> (s[i] in range <==> i < k)
    ensures RemoveAll(s, range) == s[k..]
    decreases |s|
  {
    if |s| > 0 {
      var tail := s[1..];
      assert forall i :: 0 <= i < |tail| ==> tail[i] == s[i + 1];
      if k > 0 {
        RemoveAllSuffix(tail, range, k - 1);
        assert tail[k - 1..] == s[k..];
      } else {
        KeepAllSorted(tail, range);
        assert s == [s[0]] + tail;
      }
    }
  }

  lemma {:induction false} KeepAllSorted(s: seq<Int64>, range: seq<Int64>)
    requires forall i :: 0 <= i < |s| ==> s[i] !in range
    ensures RemoveAll(s, range) == s
  {
    if |s| > 0 {
      assert forall i :: 0 <= i < |s[1..]| ==> s[1..][i] == s[i + 1];
      KeepAllSorted(s[1..], range);
      assert s == [s[0]] + s[1..];
    }
  }

  /** `reportDirectory()`: `<base>/<userId>/<installationId>` as path components. */
  function ReportDirectory(base: seq<string>, userId: Int64, installationId: Int64): seq<string> {
    base + [Format(userId), Format(installationId)]
  }

  /** `reportFile(t)`. */
  function ReportFile(base: seq<string>, userId: Int64, installationId: Int64, t: Int64): (path: seq<string>)
    ensures |path| == |base| + 3 && path[..|base|] == base
  {
    ReportDirectory(base, userId, installationId) + [ReportFileName(t)]
  }

  /** The three components below the base path read back as the user id, the
      installation id and (for a non-negative key) the key. */
  lemma ReportFileRoundTrip(base: seq<string>, userId: Int64, installationId: Int64, t: Int64)
    requires t >= 0
    ensures var path := ReportFile(base, userId, installationId, t);
      && ParseLong(path[|base|]) == Success(userId)
      && ParseLong(path[|base| + 1]) == Success(installationId)
      && ParseReportName(path[|base| + 2]) == Some(Success(t))
  {
    ParseLongFormat(userId);
    ParseLongFormat(installationId);
    ReportFileNameRoundTrip(t);
  }

  /** The reports base directory: the depth-two directories `Files.walk`
      visits, in its order, and the content of each directory by name. */
  datatype ReportsTree = ReportsTree(walk: seq<(string, string)>, dirs: map<(string, string), Directory>)

  /** The store `loadFrom` builds for one depth-two path: both names go
      through `Long.parseLong`, and the constructor then looks up the
      directory by the canonical decimal names. */
  function LoadEntry(tree: ReportsTree, entry: (string, string)): Result<(Int64, Store), NumberFormatError> {
    match ParseLong(entry.0)
    case Failure(e) => Failure(e)
    case Success(userId) =>
      match ParseLong(entry.1)
      case Failure(e) => Failure(e)
      case Success(installationId) =>
        var key := (Format(userId), Format(installationId));
        var dir := if key in tree.dirs then Some(tree.dirs[key]) else None;
        match New(userId, installationId, dir)
        case Failure(e) => Failure(e)
        case Success(st) => Success((installationId, st))
  }

  /** Applies `load` to every entry in order; the first failure is the result. */
  function LoadAll<A, B, E>(load: A -> Result<B, E>, entries: seq<A>): (r: Result<seq<B>, E>)
    ensures r.Success? <==> forall i :: 0 <= i < |entries| ==> load(entries[i]).Success?
    ensures r.Success? ==> |r.value| == |entries|
    ensures r.Success? ==> forall i :: 0 <= i < |entries| ==> load(entries[i]) == Success(r.value[i])
  {
    if |entries| == 0 then Success([])
    else
      var last := |entries| - 1;
      assert forall i :: 0 <= i < last ==> entries[..last][i] == entries[i];
      match LoadAll(load, entries[..last])
      case Failure(e) => Failure(e)
      case Success(front) =>
        match load(entries[last])
        case Failure(e) => Failure(e)
        case Success(loaded) => Success(front + [loaded])
  }

  /** `stores.put` for every loaded store in walk order: the set of keys is the
      set of installation ids, and each id maps to the last store loaded for it. */
  function Collect<V>(loaded: seq<(Int64, V)>): (r: map<Int64, V>)
    ensures CollectedKeys(loaded, r)
    ensures LastWins(loaded, r)
  {
    if |loaded| == 0 then map[]
    else
      var front := loaded[..|loaded| - 1];
      var x := loaded[|loaded| - 1];
      assert loaded == front + [x];
      CollectExtend(front, x, Collect(front));
      Collect(front)[x.0 := x.1]
  }

  /** The keys of `m` are the ids that occur in `loaded`. */
  ghost predicate CollectedKeys<V>(loaded: seq<(Int64, V)>, m: map<Int64, V>) {
    forall id :: id in m <==> exists i :: 0 <= i < |loaded| && loaded[i].0 == id
  }

  /** An entry whose id does not occur later is what `m` holds for that id. */
  ghost predicate LastWins<V>(loaded: seq<(Int64, V)>, m: map<Int64, V>) {
    forall i :: 0 <= i < |loaded| && LastOccurrence(loaded, i) ==>
      loaded[i].0 in m && m[loaded[i].0] == loaded[i].1
  }

  /** No entry after position `i` has the id of entry `i`. */
  ghost predicate LastOccurrence<V>(loaded: seq<(Int64, V)>, i: nat)
    requires i < |loaded|
  {
    forall j :: i < j < |loaded| ==> loaded[j].0 != loaded[i].0
  }

  lemma CollectExtend<V>(front: seq<(Int64, V)>, x: (Int64, V), m: map<Int64, V>)
    requires CollectedKeys(front, m) && LastWins(front, m)
    ensures CollectedKeys(front + [x], m[x.0 := x.1]) && LastWins(front + [x], m[x.0 := x.1])
  {
    CollectExtendKeys(front, x, m);
    CollectExtendLast(front, x, m);
  }

  lemma CollectExtendKeys<V>(front: seq<(Int64, V)>, x: (Int64, V), m: map<Int64, V>)
    requires CollectedKeys(front, m)
    ensures CollectedKeys(front + [x], m[x.0 := x.1])
  {
    var loaded := front + [x];
    var r := m[x.0 := x.1];
    forall id | id in r ensures exists i :: 0 <= i < |loaded| && loaded[i].0 == id {
      if id == x.0 {
        assert loaded[|front|].0 == id;
      } else {
        var i :| 0 <= i < |front| && front[i].0 == id;
        assert loaded[i].0 == id;
      }
    }
    forall id | exists i :: 0 <= i < |loaded| && loaded[i].0 == id ensures id in r {
      var i :| 0 <= i < |loaded| && loaded[i].0 == id;
      if i < |front| {
        assert front[i].0 == id;
      }
    }
  }

  lemma CollectExtendLast<V>(front: seq<(Int64, V)>, x: (Int64, V), m: map<Int64, V>)
    requires LastWins(front, m)
    ensures LastWins(front + [x], m[x.0 := x.1])
  {
    var loaded := front + [x];
    var r := m[x.0 := x.1];
    forall i | 0 <= i < |loaded| && LastOccurrence(loaded, i)
      ensures loaded[i].0 in r && r[loaded[i].0] == loaded[i].1
    {
      if i < |front| {
        assert loaded[i] == front[i];
        assert loaded[|front|].0 != loaded[i].0;
        forall j | i < j < |front| ensures front[j].0 != front[i].0 {
          assert loaded[j] == front[j];
        }
        assert LastOccurrence(front, i);
      }
    }
  }

  /** `loadFrom`: no base directory gives no stores; otherwise one store per
      depth-two directory, keyed by installation id alone. */
  function LoadFrom(base: Option<ReportsTree>): (r: Result<map<Int64, Store>, NumberFormatError>)
    ensures base.None? ==> r == Success(map[])
    ensures base.Some? ==> (r.Success? <==> forall i :: 0 <= i < |base.value.walk| ==> LoadEntry(base.value, base.value.walk[i]).Success?)
    ensures base.Some? && r.Success? ==> forall id :: id in r.value <==>
      exists i :: 0 <= i < |base.value.walk| && LoadEntry(base.value, base.value.walk[i]).Success? &&
        LoadEntry(base.value, base.value.walk[i]).value.0 == id
    ensures base.Some? && r.Success? ==> var walk := base.value.walk;
      forall i :: (0 <= i < |walk| &&
          forall j :: i < j < |walk| ==> LoadEntry(base.value, walk[j]).value.0 != LoadEntry(base.value, walk[i]).value.0) ==>
        r.value[LoadEntry(base.value, walk[i]).value.0] == LoadEntry(base.value, walk[i]).value.1
  {
    match base
    case None => Success(map[])
    case Some(tree) =>
      var load := (entry: (string, string)) => LoadEntry(tree, entry);
      match LoadAll(load, tree.walk)
      case Failure(e) => Failure(e)
      case Success(loaded) =>
        assert forall i :: 0 <= i < |tree.walk| ==> LoadEntry(tree, tree.walk[i]) == Success(loaded[i]);
        CollectLoaded(load, tree.walk, loaded);
        Success(Collect(loaded))
  }

  /** The map `Collect` builds from the loaded entries holds, for each entry
      whose id no later entry has, the value loaded for it. */
  lemma CollectLoaded<A, V, E>(load: A -> Result<(Int64, V), E>, entries: seq<A>, loaded: seq<(Int64, V)>)
    requires |loaded| == |entries| && forall i :: 0 <= i < |entries| ==> load(entries[i]) == Success(loaded[i])
    ensures forall i :: (0 <= i < |entries| &&
        forall j :: i < j < |entries| ==> load(entries[j]).value.0 != load(entries[i]).value.0) ==>
      load(entries[i]).value.0 in Collect(loaded) && Collect(loaded)[load(entries[i]).value.0] == load(entries[i]).value.1
  {
    forall i | 0 <= i < |entries| &&
      (forall j :: i < j < |entries| ==> load(entries[j]).value.0 != load(entries[i]).value.0)
      ensures LastOccurrence(loaded, i)
    {
      forall j | i < j < |loaded| ensures loaded[j].0 != loaded[i].0 {
        assert load(entries[j]) == Success(loaded[j]);
      }
    }
  }
}
