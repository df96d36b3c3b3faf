# tix-time-condenser: the per-installation measurement store, in Dafny

The condenser collects TiX time reports per installation. Each report carries
a payload of 45-byte rows. The first 8 bytes of the payload, read as a
big-endian `long`, are the report's key (its "first report timestamp"). An
installation's store keeps its reports under those keys. Two stores exist: a
filesystem store, with one JSON file per report and a sorted key list, and a
list-backed store used by the tests.

The extraction engine, `AbstractInstallationMeasurements`, walks the stored
reports in key-list order and accumulates them one at a time:

- It drops the accumulated prefix when a report comes from another address.
- It waits while the prefix holds at most 1084 observations.
- Past that point it either drops up to the widest gap above five minutes,
  or hands out a batch whose first half of keys is retired once the batch
  has been submitted.

This project models, as pure functions over immutable values:

- the engine (`Extraction`): `checkAndExtractOnce`, `checkAndExtract`,
  `find_gap_cut`, `observationsIn`, and the batch's `onSubmitSuccess` and
  `getId`;
- the two stores: `FilesystemStore`, with the file-name template and its
  regular expression, the constructor's directory scan, `append`, `get`,
  `delete`, the report paths and `loadFrom`; and `InMemoryStore`;
- the payload readers of `TixPacketSerDe` (`PacketSerDe`) over big-endian
  byte codecs (`Bytes`), and `Long.toString` / `Long.parseLong` (`Decimal`);
- the test encoder `PacketGenerator`, with its message layout and its
  nanoseconds-of-day clock;
- the value classes `TixUser` and `TixInstallation` (`Model`), with their
  validating constructors, setters, `equals` and the `HashCodeBuilder(17, 37)`
  hash;
- the engine's unit-test scenarios, stated over reports built by the default
  generator (`Scenarios`).

How the model is built:

- The abstract class and its two subclasses become the tagged union
  `Extraction.Store`.
- The engine returns the new store together with an optional batch, inside a
  `Result` that carries the I/O failures a store read can raise. A failure
  of `checkAndExtract` also carries the store as the failing pass found it,
  since the passes before it have already deleted their keys
  (`Extraction.Interrupted`).
- A batch's retire set is the list of keys it had when the batch was created.
  In Java it is a live `subList` view.
- The engine's theory, in `ExtractionProofs` and `ExtractionTheorems`, is
  stated for well-formed stores. For the filesystem store that means a
  strictly sorted key list with a file for every key; for the list-backed
  store it means distinct keys. The filesystem store has that shape when it
  is loaded from a directory whose matching names are all canonical
  (`FilesystemStore.NewConsistent`), and keeps it under `append` and
  `delete`. A name such as `tix-report-007.json` breaks it: the key 7 is
  loaded, but its canonical file is missing
  (`FilesystemStore.LeadingZerosInconsistent`). The list-backed store has the
  shape whenever its reports were appended with distinct keys, as in the
  engine's tests.
- `ExtractionProofs.Expected` is a declarative reference for one pass. It is
  built from the shortest prefix that reaches the minimum (`Reach`), the
  first report from a foreign address (`Mismatch`) and the gap cut.
  `ExtractionTheorems.OnceMatchesExpected` proves that the loop computes it.
- The filesystem store's installation directory is a map from file name to
  the report stored there. Reading a file gives back the report that was
  written, so the Jackson round trip is taken as exact. `Files.walk` order is
  an explicit listing.
- `long` and `int` arithmetic wraps explicitly where it can overflow: the
  gap subtraction, the generator's buffer size and the hash.
- The report-name pattern `tix-report-(\d+).json` leaves its dot unescaped,
  so any character other than a line terminator may stand before `json`.
  The model keeps this as written (`FilesystemStore.ForeignNamesParse`).

Where the test suite and the code disagree, the model follows the code.
`testTooFewPacketsWithNoGrowth` (lines 42-51 of the engine test) expects the
store to shrink to one key. The engine as written fetches all 17 reports
(1020 observations, below the minimum), never reaches the gap check, and
deletes nothing. `Scenarios.TooFewPacketsWithNoGrowth` proves that all 17
keys stay.

## Model

| member | source | states |
|---|---|---|
| Bytes.PutLong | src/main/java/com/github/tix_measurements/time/condenser/utils/jackson/TixPacketSerDe.java:33-37 | the 8 bytes written for a `long` read back, through `getLong`, as that `long` |
| Bytes.ReadLong | src/main/java/com/github/tix_measurements/time/condenser/utils/jackson/TixPacketSerDe.java:34-37 | a big-endian `long` is negative exactly when its first byte has the top bit set |
| Bytes.PutInt | src/test/java/com/github/tix_measurements/time/condenser/PacketGenerator.java:122 | the 4 bytes written for an `int` read back as that `int` |
| Bytes.SubInt64Wraps | src/main/java/com/github/tix_measurements/time/condenser/store/AbstractInstallationMeasurements.java:50 | the `long` difference of two initial timestamps is the exact difference wrapped to 64 bits, and is the exact difference whenever that fits |
| Decimal.ParseLong | src/main/java/com/github/tix_measurements/time/condenser/store/FilesystemInstallationMeasurements.java:58-59 | `Long.parseLong` succeeds exactly on an optionally signed decimal numeral inside the `long` range, with that numeral's value, and otherwise reports the offending text |
| Decimal.FormatRoundTrip | src/main/java/com/github/tix_measurements/time/condenser/store/AbstractInstallationMeasurements.java:114-116 | reading back the decimal text `Long.toString` produces recovers the number; it carries the contract of `Decimal.Format` |
| Decimal.ParseLongFormat | src/main/java/com/github/tix_measurements/time/condenser/store/FilesystemInstallationMeasurements.java:150-154 | parsing the decimal name of a `long` gives the `long` back |
| Decimal.FormatInjective | src/main/java/com/github/tix_measurements/time/condenser/store/FilesystemInstallationMeasurements.java:35 | distinct numbers have distinct decimal texts, so distinct keys get distinct file names |
| Decimal.ParseLongNotInjective | src/main/java/com/github/tix_measurements/time/condenser/store/FilesystemInstallationMeasurements.java:87 | parsing forgets leading zeros: "007" and "7" both read as 7 |
| PacketSerDe.FirstEight | src/main/java/com/github/tix_measurements/time/condenser/utils/jackson/TixPacketSerDe.java:33-36 | the first eight bytes of the payload, zero-padded on the right when the payload is shorter |
| PacketSerDe.ReportTimestamps | src/main/java/com/github/tix_measurements/time/condenser/utils/jackson/TixPacketSerDe.java:40-51 | reading at every 45-byte stride fails exactly when some stride start has fewer than 8 bytes left; otherwise it reads one big-endian `long` per stride, ceil(length / 45) of them |
| PacketSerDe.TimestampsFrom | src/main/java/com/github/tix_measurements/time/condenser/utils/jackson/TixPacketSerDe.java:47-49 | reading from an offset succeeds exactly when no stride start from there has fewer than 8 bytes left, and then reads one big-endian `long` at each 45-byte stride |
| PacketSerDe.FirstOfReportTimestamps | src/main/java/com/github/tix_measurements/time/condenser/utils/jackson/TixPacketSerDe.java:32-51 | the first strided timestamp is the report's key; it carries the contract of `PacketSerDe.FirstReportTimestamp` |
| PacketSerDe.FirstReportTimestampOfPutLong | src/main/java/com/github/tix_measurements/time/condenser/utils/jackson/TixPacketSerDe.java:32-38 | a payload that starts with the 8 bytes of `x` has key `x` |
| PacketSerDe.EmptyMessageKey | src/main/java/com/github/tix_measurements/time/condenser/utils/jackson/TixPacketSerDe.java:33 | an empty payload is padded to zeros and has key 0 |
| InMemoryStore.New | src/test/java/com/github/tix_measurements/time/condenser/store/InMemoryInstallationMeasurements.java:15-23 | the store keeps the given installation id and holds exactly the given reports, so its keys are theirs in their order |
| InMemoryStore.Append | src/test/java/com/github/tix_measurements/time/condenser/store/InMemoryInstallationMeasurements.java:33-35 | the new report's key is added at the end, without a duplicate check |
| InMemoryStore.Get | src/test/java/com/github/tix_measurements/time/condenser/store/InMemoryInstallationMeasurements.java:38-42 | exactly the stored reports whose key is requested come back; absent keys are skipped |
| InMemoryStore.Delete | src/test/java/com/github/tix_measurements/time/condenser/store/InMemoryInstallationMeasurements.java:45-47 | exactly the reports whose key is requested are removed; the installation id stays |
| InMemoryStore.KeepAppend | src/test/java/com/github/tix_measurements/time/condenser/store/InMemoryInstallationMeasurements.java:39-46 | the filter of `get` and `delete` works report by report, so it keeps the store's order |
| InMemoryStore.KeepMembers | src/test/java/com/github/tix_measurements/time/condenser/store/InMemoryInstallationMeasurements.java:40 | a report survives the filter exactly when its key's membership in the range is the one asked for |
| InMemoryStore.GetDeletePartition | src/test/java/com/github/tix_measurements/time/condenser/store/InMemoryInstallationMeasurements.java:38-47 | the reports `get` returns and the reports `delete` keeps are, together, the store's reports |
| InMemoryStore.DeleteThenGet | src/test/java/com/github/tix_measurements/time/condenser/store/InMemoryInstallationMeasurements.java:26-47 | after deleting a range, `get` of that range is empty and none of its keys remains |
| InMemoryStore.AppendKeepsAscending | src/test/java/com/github/tix_measurements/time/condenser/store/InMemoryInstallationMeasurements.java:26-35 | the key list stays ascending after an append exactly when it was ascending and the new key is not below the last one |
| InMemoryStore.KeysOfPackets | src/test/java/com/github/tix_measurements/time/condenser/store/InMemoryInstallationMeasurements.java:26-30 | the store's keys are exactly the keys of its reports |
| InMemoryStore.DeleteRemovesPresent | src/test/java/com/github/tix_measurements/time/condenser/store/InMemoryInstallationMeasurements.java:45-47 | deleting a range that holds a present key makes the store smaller |
| InMemoryStore.KeepDropsPrefix | src/test/java/com/github/tix_measurements/time/condenser/store/InMemoryInstallationMeasurements.java:46 | deleting the keys of the first `n` reports leaves the remaining reports in order |
| FilesystemStore.CaptureTimestamp | src/main/java/com/github/tix_measurements/time/condenser/store/FilesystemInstallationMeasurements.java:36 | a matched name yields a non-empty run of decimal digits |
| FilesystemStore.ReportFileNameRoundTrip | src/main/java/com/github/tix_measurements/time/condenser/store/FilesystemInstallationMeasurements.java:35-36 | for every key at or above zero, the pattern matches the formatted name and captures that key |
| FilesystemStore.NegativeNamesDoNotMatch | src/main/java/com/github/tix_measurements/time/condenser/store/FilesystemInstallationMeasurements.java:35-36 | the name formatted for a negative key does not match the pattern |
| FilesystemStore.ReportFileNameInjective | src/main/java/com/github/tix_measurements/time/condenser/store/FilesystemInstallationMeasurements.java:35 | distinct keys have distinct file names |
| FilesystemStore.ForeignNamesParse | src/main/java/com/github/tix_measurements/time/condenser/store/FilesystemInstallationMeasurements.java:36 | names the template never writes still match: leading zeros, and any character in place of the dot |
| FilesystemStore.Insert | src/main/java/com/github/tix_measurements/time/condenser/store/FilesystemInstallationMeasurements.java:122-123 | adding one key to a sorted list keeps it sorted and adds exactly that key |
| FilesystemStore.Sort | src/main/java/com/github/tix_measurements/time/condenser/store/FilesystemInstallationMeasurements.java:90 | the natural-order sort gives a sorted permutation of its input |
| FilesystemStore.ParsedSamples | src/main/java/com/github/tix_measurements/time/condenser/store/FilesystemInstallationMeasurements.java:81-89 | scanning the listing fails exactly when some matching name's digits overflow a `long`; otherwise it yields one key per matching name, in listing order, so two names for one key give it twice |
| FilesystemStore.New | src/main/java/com/github/tix_measurements/time/condenser/store/FilesystemInstallationMeasurements.java:72-94 | an absent directory gives an empty store; otherwise it fails exactly when the scan does, and holds the directory's files with the scanned keys, duplicates included, sorted |
| FilesystemStore.NewConsistent | src/main/java/com/github/tix_measurements/time/condenser/store/FilesystemInstallationMeasurements.java:72-94 | a directory whose matching names are all canonical loads a store with strictly ascending keys, each backed by its file |
| FilesystemStore.LeadingZerosInconsistent | src/main/java/com/github/tix_measurements/time/condenser/store/FilesystemInstallationMeasurements.java:81-90 | a directory holding only `tix-report-007.json` loads the key 7 without its canonical file, so the loaded store is not consistent |
| FilesystemStore.NewKeys | src/main/java/com/github/tix_measurements/time/condenser/store/FilesystemInstallationMeasurements.java:78-90 | a loaded store holds a key exactly when some name in its directory matches and parses to it |
| FilesystemStore.Append | src/main/java/com/github/tix_measurements/time/condenser/store/FilesystemInstallationMeasurements.java:115-124 | an existing report file leaves the store unchanged; otherwise the file is written and its key inserted into the sorted list |
| FilesystemStore.AppendIdempotent | src/main/java/com/github/tix_measurements/time/condenser/store/FilesystemInstallationMeasurements.java:117-128 | appending the same report twice has the effect of appending it once |
| FilesystemStore.AppendConsistent | src/main/java/com/github/tix_measurements/time/condenser/store/FilesystemInstallationMeasurements.java:115-124 | append keeps the key list strictly sorted and every key backed by its file |
| FilesystemStore.Get | src/main/java/com/github/tix_measurements/time/condenser/store/FilesystemInstallationMeasurements.java:132-140 | one report per requested key, in request order, each read from its file; otherwise it fails naming the file of the first requested key whose file is missing |
| FilesystemStore.ReadAll | src/main/java/com/github/tix_measurements/time/condenser/store/FilesystemInstallationMeasurements.java:134-139 | reading a list of files succeeds exactly when all exist, giving their reports in order, and otherwise fails naming the first missing one |
| FilesystemStore.Delete | src/main/java/com/github/tix_measurements/time/condenser/store/FilesystemInstallationMeasurements.java:143-148 | every requested key leaves the list and loses its file; absent keys are ignored; every other key and file stays; sortedness is kept |
| FilesystemStore.RemoveAllMembers | src/main/java/com/github/tix_measurements/time/condenser/store/FilesystemInstallationMeasurements.java:147 | `removeAll` keeps exactly the keys not in the range |
| FilesystemStore.RemoveAllKeepsOrder | src/main/java/com/github/tix_measurements/time/condenser/store/FilesystemInstallationMeasurements.java:147 | `removeAll` keeps the list sorted, and strictly sorted |
| FilesystemStore.GetAfterAppend | src/main/java/com/github/tix_measurements/time/condenser/store/FilesystemInstallationMeasurements.java:115-140 | after appending a report with a new key, `get` of that key returns the report |
| FilesystemStore.DeletePrefix | src/main/java/com/github/tix_measurements/time/condenser/store/FilesystemInstallationMeasurements.java:143-148 | deleting the first `n` keys of a consistent store leaves the remaining keys, still consistent |
| FilesystemStore.ReportFile | src/main/java/com/github/tix_measurements/time/condenser/store/FilesystemInstallationMeasurements.java:150-159 | the report path is the base directory followed by three components |
| FilesystemStore.ReportFileRoundTrip | src/main/java/com/github/tix_measurements/time/condenser/store/FilesystemInstallationMeasurements.java:150-159 | the user id, the installation id and (for a key at or above zero) the key read back from the path's three components |
| FilesystemStore.LoadAll | src/main/java/com/github/tix_measurements/time/condenser/store/FilesystemInstallationMeasurements.java:55-65 | loading each walked directory succeeds exactly when every one does, one store per directory, in order |
| FilesystemStore.Collect | src/main/java/com/github/tix_measurements/time/condenser/store/FilesystemInstallationMeasurements.java:61 | the map has exactly the loaded installation ids as keys, and the last store loaded for an id is the one kept |
| FilesystemStore.LoadFrom | src/main/java/com/github/tix_measurements/time/condenser/store/FilesystemInstallationMeasurements.java:46-70 | an absent base directory gives an empty map; otherwise loading fails exactly when a walked directory fails, and the map holds exactly the installation ids of the walked directories, each mapped to the store loaded from the last directory walked with that id |
| Extraction.Get | src/main/java/com/github/tix_measurements/time/condenser/store/AbstractInstallationMeasurements.java:65 | the list-backed store's `get` never fails; the filesystem store's fails as `FilesystemStore.Get` states |
| Extraction.Delete | src/main/java/com/github/tix_measurements/time/condenser/store/AbstractInstallationMeasurements.java:72 | the requested keys leave the store and every other key stays, whichever store it is |
| Extraction.ObservationsAreTimestamps | src/main/java/com/github/tix_measurements/time/condenser/store/AbstractInstallationMeasurements.java:40-42 | for a payload of whole rows, `observationsIn` counts the timestamps the strided reader returns, and the first of them is the key |
| Extraction.TotalToAgrees | src/main/java/com/github/tix_measurements/time/condenser/store/AbstractInstallationMeasurements.java:63 | the observation sum over a prefix depends on that prefix only |
| Extraction.GapCut | src/main/java/com/github/tix_measurements/time/condenser/store/AbstractInstallationMeasurements.java:44-57 | a cut, when there is one, names a position between two consecutive reports; `Extraction.GapCutSpec` states which one |
| Extraction.GapCutSpec | src/main/java/com/github/tix_measurements/time/condenser/store/AbstractInstallationMeasurements.java:44-57 | no cut exactly when every consecutive gap is at most five minutes; otherwise the cut is the first position of the largest gap, and that gap exceeds five minutes |
| Extraction.CutAmongSpec | src/main/java/com/github/tix_measurements/time/condenser/store/AbstractInstallationMeasurements.java:47-55 | the scan over the first `n` gaps finds no cut exactly when they are all within tolerance, and otherwise finds the first largest one |
| Extraction.Scan | src/main/java/com/github/tix_measurements/time/condenser/store/AbstractInstallationMeasurements.java:63-97 | a drop always removes a prefix of the keys; a batch holds at least the minimum and retires the first half of its keys |
| Extraction.Cut | src/main/java/com/github/tix_measurements/time/condenser/store/AbstractInstallationMeasurements.java:82-97 | past the minimum, a gap drops a key prefix or ships a report prefix, and no gap ships all of the reports |
| Extraction.CheckAndExtractOnce | src/main/java/com/github/tix_measurements/time/condenser/store/AbstractInstallationMeasurements.java:59-120 | an attempt keeps the installation id; a batch leaves the store unchanged, carries the decimal installation id and retires the first half of its keys; without a batch the store is unchanged or strictly smaller |
| Extraction.CheckAndExtract | src/main/java/com/github/tix_measurements/time/condenser/store/AbstractInstallationMeasurements.java:26-38 | only deletes keys of the store; a batch is the one the last attempt returned; no batch means one more attempt would change nothing; a failure carries the store the failing attempt started from, with earlier deletions kept |
| Extraction.OnSubmitSuccess | src/main/java/com/github/tix_measurements/time/condenser/store/AbstractInstallationMeasurements.java:107-111 | deletes the retire set, then extracts from what is left; whether that succeeds or fails, no retired key is left in the store |
| ExtractionProofs.FetchView | src/main/java/com/github/tix_measurements/time/condenser/store/AbstractInstallationMeasurements.java:64-65 | in a well-formed store, fetching the `i`-th key returns the `i`-th report |
| ExtractionProofs.DeletePrefixView | src/main/java/com/github/tix_measurements/time/condenser/store/AbstractInstallationMeasurements.java:88 | deleting the first `n` keys of a well-formed store leaves exactly the later keys and their reports, still well formed |
| ExtractionProofs.DeleteNothing | src/main/java/com/github/tix_measurements/time/condenser/store/AbstractInstallationMeasurements.java:109 | deleting an empty retire set changes nothing |
| ExtractionProofs.Reach | src/main/java/com/github/tix_measurements/time/condenser/store/AbstractInstallationMeasurements.java:63-79 | the shortest prefix holding the minimum: below the minimum one report earlier, at or above it with that report; none when the whole store stays below |
| ExtractionProofs.ReachUnique | src/main/java/com/github/tix_measurements/time/condenser/store/AbstractInstallationMeasurements.java:63-79 | any position that crosses the minimum is the one `Reach` finds |
| ExtractionProofs.Mismatch | src/main/java/com/github/tix_measurements/time/condenser/store/AbstractInstallationMeasurements.java:67-74 | the first report from a foreign address, if any |
| ExtractionProofs.CutNeverTruncates | src/main/java/com/github/tix_measurements/time/condenser/store/AbstractInstallationMeasurements.java:78-93 | whenever the gap check runs, less than the minimum precedes the last report, so a found gap always drops and the truncating branch is never taken |
| ExtractionProofs.ScanMatchesExpected | src/main/java/com/github/tix_measurements/time/condenser/store/AbstractInstallationMeasurements.java:59-97 | the loop over a well-formed store computes the declarative outcome `Expected` |
| ExtractionProofs.ExpectedMismatch | src/main/java/com/github/tix_measurements/time/condenser/store/AbstractInstallationMeasurements.java:67-74 | a foreign address in the `i`-th report, while still below the minimum, drops exactly the first `i + 1` keys |
| ExtractionTheorems.OnceMatchesExpected | src/main/java/com/github/tix_measurements/time/condenser/store/AbstractInstallationMeasurements.java:59-120 | an attempt on a well-formed store never fails, and does what `Expected` says |
| ExtractionTheorems.ExpectedReady | src/main/java/com/github/tix_measurements/time/condenser/store/AbstractInstallationMeasurements.java:82-97 | a batch is the shortest prefix past the minimum, all from the first report's address and with no gap above five minutes, and retires half its keys |
| ExtractionTheorems.ExpectedDrop | src/main/java/com/github/tix_measurements/time/condenser/store/AbstractInstallationMeasurements.java:67-93 | a drop removes a key prefix because of a foreign address or because of a gap with too little before it |
| ExtractionTheorems.GapDrop | src/main/java/com/github/tix_measurements/time/condenser/store/AbstractInstallationMeasurements.java:85-89 | without a foreign address in the way, a drop is a gap cut preceded by less than the minimum, and removes the keys up to the gap |
| ExtractionTheorems.TooFewWaits | src/main/java/com/github/tix_measurements/time/condenser/store/AbstractInstallationMeasurements.java:59-120 | reports from one address totalling less than the minimum give no batch and no drop |
| ExtractionTheorems.ExactMinimumWaits | src/main/java/com/github/tix_measurements/time/condenser/store/AbstractInstallationMeasurements.java:63-79 | a same-address prefix holding exactly the minimum gives no batch and no drop |
| ExtractionTheorems.BatchShape | src/main/java/com/github/tix_measurements/time/condenser/store/AbstractInstallationMeasurements.java:95-117 | a batch leaves the store as it is, carries the decimal installation id, and has the batch shape above |
| ExtractionTheorems.DropShape | src/main/java/com/github/tix_measurements/time/condenser/store/AbstractInstallationMeasurements.java:67-93 | an attempt that changes the store removes exactly the keys of the drop, a prefix, and keeps the reports behind them |
| ExtractionTheorems.TooFewLeavesStore | src/main/java/com/github/tix_measurements/time/condenser/store/AbstractInstallationMeasurements.java:26-38 | `checkAndExtract` on same-address reports below the minimum returns nothing and deletes nothing |
| ExtractionTheorems.ExactMinimumLeavesStore | src/main/java/com/github/tix_measurements/time/condenser/store/AbstractInstallationMeasurements.java:26-38 | `checkAndExtract` with a same-address prefix of exactly the minimum returns nothing and deletes nothing |
| ExtractionTheorems.EmptyStoreWaits | src/main/java/com/github/tix_measurements/time/condenser/store/AbstractInstallationMeasurements.java:26-38 | an empty store gives no batch and stays empty |
| ExtractionTheorems.OnceTrims | src/main/java/com/github/tix_measurements/time/condenser/store/AbstractInstallationMeasurements.java:59-120 | an attempt on a well-formed store leaves a well-formed suffix of it, with the same reports under the same keys |
| ExtractionTheorems.CheckAndExtractSettles | src/main/java/com/github/tix_measurements/time/condenser/store/AbstractInstallationMeasurements.java:26-38 | on a well-formed store `checkAndExtract` stops where the reference decides no drop: with no batch exactly when it says to wait, otherwise with the batch it describes |
| ExtractionTheorems.CheckAndExtractTrims | src/main/java/com/github/tix_measurements/time/condenser/store/AbstractInstallationMeasurements.java:26-38 | `checkAndExtract` only ever deletes a prefix of the key list, never adds, and never fails on a well-formed store |
| ExtractionTheorems.SubmitTrims | src/main/java/com/github/tix_measurements/time/condenser/store/AbstractInstallationMeasurements.java:107-111 | after a batch from a well-formed store, `onSubmitSuccess` never fails and leaves a suffix of the keys with at least the retired half gone |
| ExtractionTheorems.SubmitRetiresHalf | src/main/java/com/github/tix_measurements/time/condenser/store/AbstractInstallationMeasurements.java:92-111 | after a submission the first half of the batch's keys is gone and the rest of the store is intact; the store shrinks exactly when the batch has at least two reports |
| ExtractionTheorems.SingleReportBatchRepeats | src/main/java/com/github/tix_measurements/time/condenser/store/AbstractInstallationMeasurements.java:96-111 | a batch of one report retires nothing, so `onSubmitSuccess` hands out the same batch again |
| PacketGenerator.FirstNanosOfCurrent | src/test/java/com/github/tix_measurements/time/condenser/PacketGenerator.java:95-102 | a non-negative number of nanoseconds below one day |
| PacketGenerator.NanosOfDay | src/test/java/com/github/tix_measurements/time/condenser/PacketGenerator.java:95-102 | a whole number of seconds, below a day, congruent to the timestamp modulo a day: the second of the UTC day |
| PacketGenerator.FirstNanosOfNext | src/test/java/com/github/tix_measurements/time/condenser/PacketGenerator.java:104-106 | fifteen seconds past the day's second, below a day plus fifteen seconds |
| PacketGenerator.SameDayNanos | src/test/java/com/github/tix_measurements/time/condenser/PacketGenerator.java:95-106 | within one UTC day, timestamps `d` seconds apart give initial timestamps `d` seconds of nanos apart |
| PacketGenerator.NextDayNanos | src/test/java/com/github/tix_measurements/time/condenser/PacketGenerator.java:95-106 | across UTC midnight, a later timestamp gives a smaller initial timestamp |
| PacketGenerator.ClockSteps | src/test/java/com/github/tix_measurements/time/condenser/PacketGenerator.java:123-127 | the clock moves 5 ms per reading and reaches the next row's start after one second, well inside the `long` range |
| PacketGenerator.GenerateMessage | src/test/java/com/github/tix_measurements/time/condenser/PacketGenerator.java:108-131 | the loop writes exactly the rows the message layout prescribes, or fails as the buffer does; it carries the contract of `PacketGenerator.Message` |
| PacketGenerator.FillRows | src/test/java/com/github/tix_measurements/time/condenser/PacketGenerator.java:118-128 | the row loop overflows exactly when the buffer is smaller than the rows; otherwise it writes all rows |
| PacketGenerator.PutRow | src/test/java/com/github/tix_measurements/time/condenser/PacketGenerator.java:119-127 | one iteration writes one row and advances the clock to the next row's start |
| PacketGenerator.OverflowMessage | src/test/java/com/github/tix_measurements/time/condenser/PacketGenerator.java:117-128 | a buffer size that wrapped below the rows' size overflows during the loop |
| PacketGenerator.FullMessage | src/test/java/com/github/tix_measurements/time/condenser/PacketGenerator.java:117-129 | a buffer size that did not wrap holds exactly the rows |
| PacketGenerator.EmptyMessage | src/test/java/com/github/tix_measurements/time/condenser/PacketGenerator.java:117-129 | with no rows to write, the zeroed buffer is returned |
| PacketGenerator.Build | src/test/java/com/github/tix_measurements/time/condenser/PacketGenerator.java:68-84 | the build succeeds exactly when the message does, and afterwards the generator holds a key pair and is otherwise unchanged |
| PacketGenerator.CreateNewPacket | src/test/java/com/github/tix_measurements/time/condenser/PacketGenerator.java:91-93 | the report carries the given user and installation ids |
| GeneratorProofs.Seconds | src/test/java/com/github/tix_measurements/time/condenser/PacketGenerator.java:119 | the consecutive seconds from a start, wrapped to `long` |
| GeneratorProofs.RowHeadFields | src/test/java/com/github/tix_measurements/time/condenser/PacketGenerator.java:119-122 | row `i` starts with `s + i`, then the type byte 'S' on even rows and 'L' on odd ones, then the matching packet size |
| GeneratorProofs.RowReadingValue | src/test/java/com/github/tix_measurements/time/condenser/PacketGenerator.java:123-127 | the `j`-th clock reading of row `i` is c0 + i·10^9 + j·5·10^6 |
| GeneratorProofs.MessageFits | src/test/java/com/github/tix_measurements/time/condenser/PacketGenerator.java:116-117 | a row count whose buffer fits an `int` gives exactly 45 bytes per row |
| GeneratorProofs.MessageOfNoRows | src/test/java/com/github/tix_measurements/time/condenser/PacketGenerator.java:117-129 | zero rows give an empty message |
| GeneratorProofs.MessageNegative | src/test/java/com/github/tix_measurements/time/condenser/PacketGenerator.java:117 | a negative buffer size is refused by `allocate` |
| GeneratorProofs.MessageTooLarge | src/test/java/com/github/tix_measurements/time/condenser/PacketGenerator.java:117-128 | rows that do not fit an `int`-sized buffer make the build fail |
| GeneratorProofs.MessageRow | src/test/java/com/github/tix_measurements/time/condenser/PacketGenerator.java:118-128 | bytes 45i to 45i+45 of the message are row `i` |
| GeneratorProofs.ReadsGeneratedSeconds | src/test/java/com/github/tix_measurements/time/condenser/PacketGenerator.java:119 | reading a generated message back gives s, s+1, ..., and its key is `s` |
| GeneratorProofs.BuildReport | src/test/java/com/github/tix_measurements/time/condenser/PacketGenerator.java:68-84 | a built report has port-4500 addresses, the builder's ids, timestamps read back as consecutive seconds, key `s`, initial timestamp `firstNanosOfNext(s)`, reception 5 s later, and a signature of its message by its key pair |
| GeneratorProofs.BuildAgain | src/test/java/com/github/tix_measurements/time/condenser/PacketGenerator.java:71-73 | building again reuses the key pair of the first build; only an absent key pair is generated |
| GeneratorProofs.DefaultPacket | src/test/java/com/github/tix_measurements/time/condenser/PacketGenerator.java:91-93 | a default report holds 60 rows (2700 bytes) from 192.168.1.1 to 10.0.0.1, keyed 1530000000, starting 8 h 0 min 15 s into its day |
| GeneratorProofs.DefaultDayOffset | src/test/java/com/github/tix_measurements/time/condenser/PacketGenerator.java:95-102 | the default timestamp is 8 hours into its UTC day |
| Model.NewUser | src/main/java/com/github/tix_measurements/time/condenser/model/TixUser.java:15-25 | the constructor refuses an id at or below zero and a null or empty username, and otherwise stores the fields as given |
| Model.SetUserId | src/main/java/com/github/tix_measurements/time/condenser/model/TixUser.java:31-33 | changes only the id |
| Model.SetUsername | src/main/java/com/github/tix_measurements/time/condenser/model/TixUser.java:39-41 | changes only the username |
| Model.SetEnabled | src/main/java/com/github/tix_measurements/time/condenser/model/TixUser.java:47-49 | changes only the enabled flag |
| Model.UserEqualsIsValueEquality | src/main/java/com/github/tix_measurements/time/condenser/model/TixUser.java:52-64 | `equals` holds exactly for a user with the same id, flag and username; it is reflexive and false for null and other classes |
| Model.EqualUsersHashEqually | src/main/java/com/github/tix_measurements/time/condenser/model/TixUser.java:52-73 | equal users have equal hashes |
| Model.ToggleEnabledChangesHash | src/main/java/com/github/tix_measurements/time/condenser/model/TixUser.java:52-73 | flipping the enabled flag changes both `equals` and the hash |
| Model.SettersSkipValidation | src/main/java/com/github/tix_measurements/time/condenser/model/TixUser.java:15-33 | a setter can give a constructed user an id the constructor refuses, and setting the id back restores the user |
| Model.NewInstallation | src/main/java/com/github/tix_measurements/time/condenser/model/TixInstallation.java:15-26 | the constructor refuses an id at or below zero and a null or empty name or public key, and otherwise stores the fields as given |
| Model.SetInstallationId | src/main/java/com/github/tix_measurements/time/condenser/model/TixInstallation.java:32-34 | changes only the id |
| Model.SetName | src/main/java/com/github/tix_measurements/time/condenser/model/TixInstallation.java:40-42 | changes only the name |
| Model.SetPublicKey | src/main/java/com/github/tix_measurements/time/condenser/model/TixInstallation.java:48-50 | changes only the public key |
| Model.InstallationEqualsIsValueEquality | src/main/java/com/github/tix_measurements/time/condenser/model/TixInstallation.java:52-65 | `equals` holds exactly for an installation with the same id, name and public key |
| Model.EqualInstallationsHashEqually | src/main/java/com/github/tix_measurements/time/condenser/model/TixInstallation.java:52-74 | equal installations have equal hashes |
| Scenarios.UniformTotal | src/main/java/com/github/tix_measurements/time/condenser/store/AbstractInstallationMeasurements.java:40-42 | `k` reports of 60 observations hold 60·k observations |
| Scenarios.FewReportsWait | src/main/java/com/github/tix_measurements/time/condenser/store/AbstractInstallationMeasurements.java:26-38 | at most 18 same-address reports of 60 observations (1080) give no batch and no drop |
| Scenarios.UniformReady | src/main/java/com/github/tix_measurements/time/condenser/store/AbstractInstallationMeasurements.java:63-97 | with 19 or more such reports and no wide gap among the first 19, those 19 make the batch and the first 9 keys are retired |
| Scenarios.UniformShips | src/main/java/com/github/tix_measurements/time/condenser/store/AbstractInstallationMeasurements.java:26-38 | `checkAndExtract` then returns that batch and leaves the store as it is |
| Scenarios.UniformSubmitWaits | src/main/java/com/github/tix_measurements/time/condenser/store/AbstractInstallationMeasurements.java:107-111 | submitting a 19-report batch from at most 27 such reports retires 9 keys, and no further batch comes out |
| Scenarios.GeneratedFacts | src/test/java/com/github/tix_measurements/time/condenser/PacketGenerator.java:68-84 | a default report built at `t` holds 60 observations from 192.168.1.1 under key `t`, and starts at `firstNanosOfNext(t)` |
| Scenarios.MinuteGap | src/test/java/com/github/tix_measurements/time/condenser/PacketGenerator.java:95-106 | default reports one minute apart on the test's day start one minute apart, within the five-minute tolerance |
| Scenarios.Filled | src/test/java/com/github/tix_measurements/time/condenser/store/TestAbstractInstallationMeasurements.java:20-35 | the store after the test's `setup` and appends holds installation 1 and exactly the appended reports |
| Scenarios.MinuteStore | src/test/java/com/github/tix_measurements/time/condenser/store/TestAbstractInstallationMeasurements.java:55-59 | the filled test store has distinct keys and uniform reports in append order, one minute apart |
| Scenarios.EmptyMeasurements | src/test/java/com/github/tix_measurements/time/condenser/store/TestAbstractInstallationMeasurements.java:25-28 | a fresh store gives no batch |
| Scenarios.TooFewPacketsGrowable | src/test/java/com/github/tix_measurements/time/condenser/store/TestAbstractInstallationMeasurements.java:30-39 | 16 minute reports give no batch and keep all 16 keys |
| Scenarios.TooFewPacketsWithNoGrowth | src/test/java/com/github/tix_measurements/time/condenser/store/TestAbstractInstallationMeasurements.java:41-51 | with the far report added, the engine as written gives no batch and keeps all 17 keys |
| Scenarios.EnoughMeasurementsWithNoGrowth | src/test/java/com/github/tix_measurements/time/condenser/store/TestAbstractInstallationMeasurements.java:53-70 | 19 minute reports and a far one give a batch of exactly the 19 while the store keeps 20 keys; after the submission 11 keys remain and no batch follows |

## Left out

- The Jackson codec (`serialize`, `deserialize`, the mixin): a stored file holds the report itself, so reading it back gives the report that was written.
- Filesystem effects: POSIX permissions, `createDirectories`, `createFile`, and I/O exceptions other than a missing report file.
- `Files.walk`: its order and its recursion are given as an explicit listing, one of names for an installation directory and one of depth-two directories for the base directory.
- Java `subList` aliasing and concurrent-modification failures: a retire set and a deleted range are the keys they held when they were taken.
- The `int` overflow of the stream sum of observations, which needs more than 2^31 observations.
- The `int` overflow of the strided reader's offset for payloads near 2^31 bytes.
- Logging.
- `LocalDateTime`'s range limit, which throws `DateTimeException` for timestamps beyond year ±999999999.
- Key generation, signing and the `TixPacketType` sizes: these come from other libraries and are parameters of `PacketGenerator.Environment`; `sign` is a function there, so a randomized signature scheme is not modelled.
- `InetAddress` resolution (`UnknownHostException`) and address equality: a host is its canonical IP text and the engine compares those strings, so two spellings of one address (`localhost` and `127.0.0.1`) count as different, and an unresolved address, whose `getAddress()` is null and makes the comparison throw, is not modelled.
- The default locale of `String.format`: report file names are assumed to be formatted with ASCII digits and an ASCII minus sign. In a locale with other digits `%d` writes names that `\d` does not match, so such files would be skipped on reload; `FilesystemStore.ReportFileNameRoundTrip` and `FilesystemStore.NewConsistent` hold under this assumption.
- The unused constants `MAX_REPORTS_USED_AT_ONCE` (1200) and `MAX_MEASURES_PER_PACKET` (60): they are declared and never read.
- The generator's `with...` methods: they are record updates of `PacketGenerator.Generator`.
- Decimal.ParseLong: accepts ASCII digits only. `Long.parseLong` also accepts other Unicode decimal digits in directory names.
- `String.hashCode` runs over UTF-16 code units; the model hashes Dafny characters, which agree with them only inside the Basic Multilingual Plane.
- Concrete hash values, and the claims in the `TixUser` tests that changing the id or the username changes the hash: a collision can make those claims false.
- The network and messaging handlers (`TixReceiver`, `TixPackageValidator`, `RabbitReceiver`, `RabbitSubmitter`, `Sender`, `TixCondenser`) and `MeasurementStore`.
- PacketGenerator.FirstNanosOfCurrent: its contract only bounds the result to one day; `PacketGenerator.NanosOfDay` states the exact second of the day.
- PacketGenerator.FirstNanosOfNext: its contract only bounds the result; `PacketGenerator.SameDayNanos` and `PacketGenerator.NextDayNanos` state how it moves with the timestamp.
- Extraction.Scan: its contract states the shape of each outcome only; `ExtractionProofs.ScanMatchesExpected` states which outcome the loop reaches.
- Extraction.CheckAndExtractOnce: its contract states the shape of each outcome only; `ExtractionTheorems.OnceMatchesExpected` states which outcome an attempt gives.
- FilesystemStore.ReportFile: its contract states the path's shape only; `FilesystemStore.ReportFileRoundTrip` states what its components read back as.
- The engine's unit tests are stated for the list-backed store after `setup` and the appends (`Scenarios.Filled`), as the tests use it.
