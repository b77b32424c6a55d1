# rDNS-Crawler: a verified model

The repository maintains a dataset of reverse-DNS observations: it crawls IPv4
addresses, stores every outcome in compact `.rdnsz` shards, re-crawls parts of
an old pass, compares the two passes and merges them. This Dafny project models
the parts whose correctness the dataset rests on and proves what they promise:

- **The `.rdnsz` v2 store** (`Bytes`, `Template`, `TemplateForms`, `Block`,
  `Reader`, `Writer`, `Sessions`, `Layout`). Varints, delta-encoded addresses, packed status bytes, templated
  hostnames, frames and the patched header are real byte sequences. Whatever is
  added in any number of sessions is what `Scan` and `ReadHeader` report, and a
  file cut at any byte loses exactly its torn tail.
- **Merge and compare** (`Names`, `NameLaws`, `Sorting`, `MergeSpec`,
  `MergeRule`, `MergeTable`, `Merge`, `MergeLaws`, `MergeFiles`, `MergeTwice`,
  `CompareSpec`, `CompareRecords`, `Compare`, `CompareRun`, `Agreement`). The bitmap,
  the packed table with its byte arena, the sorts, the in-place deduplication,
  the binary searches and the flag bits are modelled as code and proved against
  a simple meaning on record lists. Merge is a map, is idempotent and balances
  its PTR records; compare conserves every record over all shard pairs; the two
  packages agree.
- **The re-crawl pipeline** (`Pipeline`, `PipelineLaws`, `PipelineOffers`,
  `PipelineReach`, `PipelineLiveness`, `Resume`, `ResumeSafety`, `ResumeHole`, `ResumeCursor`, `Runs`). The target
  goroutine, the worker pool, the sink and the cursor writer are one step system
  with bounded channels, free choice and cancellation at any moment. Every
  reachable state conserves its targets; the system neither deadlocks nor runs
  forever; any number of interrupted runs leaves no hole under a condition on
  the configuration, and that condition is exact.
- **Address generation** (`IpGen`). The jump-over-reserved walk, resume
  arithmetic, sharding, sampling and the size of the routable space.

## Reading the model

- Status strings are the constructors of `Model.Status`; any other string is
  `Unknown(text)`. Names are byte sequences.
- The zstd codec is a pair of functions. `Codec.Valid` says that it is lossless
  and that a payload of at most `MAX_RAW` bytes (about half of 2^32) does not
  compress to 2^32 bytes or more. A file and its buffered writer are one byte
  sequence.
- `Writer`, `Merge.Result` and `Compare.Result` are classes because the code
  updates them in place. Each method states the new state as a function of the
  old one; ghost fields of `Writer` remember which additions each block holds.
- The library sorts are methods, so callers only know what the library promises:
  `UnstableSort` gives some sorted permutation, `StableSort` also keeps the
  order of equal keys.
- Counters that are 64-bit in the file (`Total` and the histogram of a header)
  wrap explicitly; a file of fewer than 2^64 records never notices.
- Status codes 8 to 15 fit the on-disk field but are not assigned. Merge and
  compare require exactly what keeps their array indices in range: in merge that
  the code counted for a record is below 8 (`Countable`), in compare that masked
  old records are assigned (always so for a mask built by `ParseStatuses`,
  `AssignedMask`) and that no target meets a code above 8 (`Joinable`). Code 8
  lands in compare's "missing" column and is modelled there.
- A killed run is a reachable state together with the targets whose records
  survived; the statements about all stops take everything flushed to survive.
- In `DecodeBlock` a name length that leaves the range of a signed 64-bit
  integer is the outcome `SliceFault`: there the code's bounds check passes and
  the slice expression faults. No block written by the writer decodes to it.

## Where code and documentation differ

- `StreamTargets` says that a resumed run never moves the cursor backwards. It
  never moves below the *resume point* (`CursorIsTrustworthy`), but the cursor
  file itself can move back. An uncancelled run that is done moves it back
  exactly when its slice ends below the old cursor, as a small limit makes it
  (`FinishedCursor`). With cancellation every non-zero cursor can move back, since
  a run cancelled at its first target leaves the resume point
  (`NeverMovesBackIff`).
- The rewind of `runRecrawl` is meant to turn holes into duplicates. It does so
  for every stop exactly when the pool has one worker or the slice of the run is
  at most one checkpoint (131072 targets) long (`EveryCleanStopSafeIff`). In every
  other configuration one lookup can outlast a whole checkpoint and be given up
  on cancellation, and the next run starts behind it (`HoleWhenExposed`).
- A has_ptr record of the new pass without names is read from merge's arena as
  one empty name (`RejoinedFaithful`), so compare calls it unchanged and merge
  calls it changed (`NamelessPtrDisagrees`). Having a name is exactly what makes
  the two verdicts coincide (`VerdictsAgreeIff`), so the agreement of the two
  packages is stated for new has_ptr records that carry one.

## Model

| member | source | states |
|---|---|---|
| Model.Code | internal/model/record.go:81-86 | every status string, known or not, gets an assigned code, and exactly has_ptr gets code 0, so the writer's guard on the string and the reader's guard on the code agree |
| Model.StatusString | internal/model/record.go:130-135 | inverse of `Code` on assigned codes, net_error for the others |
| Bytes.UvarintRoundTrip | internal/store/writer.go:229-233 | every 64-bit value is read back with its exact width, whatever bytes follow |
| Template.Itoa | internal/store/template.go:35-44 | decimal digits denoting exactly the octet, without a leading zero |
| Template.TemplateRoundTrip | internal/store/template.go:48-67 | for every address and every name, one simultaneous expansion undoes the four sequential replacements if and only if the name is free of bytes 1 to 4 |
| Template.EncodeComplete | internal/store/template.go:48-55 | after encoding, none of the four textual forms of the address is left anywhere in the name |
| TemplateForms.MarkersMean | internal/store/template.go:48-55 | on octets and digits: in a name with no other digits the address joined by "-" becomes marker 1, reversed 2, joined by "." 3, reversed 4; an address that reads the same both ways takes the forward marker |
| TemplateForms.MarkersRead | internal/store/template.go:57-67 | each marker, wherever it stands, is read back as that text |
| Template.Encode | internal/store/template.go:48-55 | encoding never lengthens a name |
| Block.EncodePayload | internal/store/writer.go:152-183 | the encoding loop produces the block encoding of the sorted records |
| Block.DecodeBlock | internal/store/reader.go:131-188 | the decoding loop delivers the records before the first defect and reports that defect, for any bytes whatsoever |
| Block.BlockRoundTrip | internal/store/reader.go:131-188 | decoding an encoded block yields the stored form of every record, in order, even if the block was not sorted |
| Block.StoredKeepsNames | internal/store/writer.go:171-182 | the kept names come back unchanged if and only if none holds a marker byte |
| Block.StoredSurvives | internal/store/writer.go:160-183 | field by field: address, the code of every status (unknown ones net_error), the FCrDNS outcome, no names unless has_ptr, and of a has_ptr record min(32, n) names, the marker-free ones unchanged |
| Layout.RecordLayout | internal/store/format.go:36-43 | the bytes of a record: difference of addresses, status in bits 0 to 3, bit 4 for checked and bit 5 for matched, a name count for has_ptr alone |
| Layout.VarintLayout | internal/store/format.go:36-43 | a varint is base 128, least significant first, bit 7 on all bytes but the last |
| Reader.Scan | internal/store/reader.go:79-129 | the frame loop delivers exactly what the file specification says, for any bytes, with the same five ways to end |
| Reader.FileRoundTrip | internal/store/reader.go:96-128 | a complete file delivers every stored record of every block once, in block order, and ends cleanly |
| Reader.TruncationRobust | internal/store/reader.go:87-129 | a well-formed file cut at any byte from the header on delivers exactly the records of the blocks wholly inside the cut, cleanly if and only if the cut is on a block boundary |
| Reader.DamageIsReported | internal/store/reader.go:96-128 | behind whole blocks, a complete frame that does not decompress or does not decode ends the scan with exactly that error, never as a torn tail or a clean end |
| Reader.WholeBlocksFit | internal/store/reader.go:96-119 | the number of blocks used there is the largest number of frames that fit before the cut |
| Reader.BoundedBlockFits | internal/store/format.go:32-33 | with names of at most 1004 bytes a raw block stays below 2^32, so rawLen, the record count and compressedLen are exact |
| Reader.BuildHeader | internal/store/writer.go:215-227 | the header image, whatever follows it, is read by `ReadHeader` as the same identity, timestamp, total and histogram |
| Layout.HeaderLayout | internal/store/format.go:50-59 | every header field lies at its absolute byte offset, little-endian |
| Layout.FileLayout | internal/store/writer.go:186-195 | from byte 128 on, block after block, with compressed length, record count and raw length at bytes 0, 4 and 8 of its frame |
| Writer.Writer.Add | internal/store/writer.go:123-143 | appends exactly one record to everything added so far, keeps file, totals, histogram and buffer bound valid, and writes a block exactly when 65536 records are buffered |
| Writer.Writer.FlushBlock | internal/store/writer.go:146-195 | turns the buffer into one more block that is an IP-sorted permutation of it, and loses nothing |
| Writer.Writer.Close | internal/store/writer.go:198-213 | leaves a file whose blocks hold exactly the additions and whose header carries their totals |
| Writer.Resume | internal/store/writer.go:59-90 | a missing or short file starts afresh, a bad header or another shard is refused, a closed file is continued with cumulative totals |
| Sessions.RunSessions | internal/store/writer.go:43-213 | after any number of create or resume, add, close rounds the scan delivers every addition exactly once, each surviving field by field, and the header totals are those of the delivered records |
| Sessions.DeliveredOnce | internal/store/writer.go:146-195 | as multisets, delivered records are the stored form of the additions |
| Names.ComputeHash | internal/compare/compare.go:450-470 | the nested loops compute FNV-1a over the NUL-terminated, sorted, lower-cased, dot-trimmed names |
| Names.SameNamesSameHash | internal/merge/merge.go:407-427 | lists equal as multisets of normalised names always hash alike, so whatever counts as changed really differs |
| Names.CanonicalIsFaithful | internal/compare/compare.go:450-470 | the hashed bytes are equal if and only if the normalised multisets are, for names without NUL |
| NameLaws.RespelledHashesAlike | internal/compare/compare.go:450-470 | on bytes alone: lists that differ only in order, ASCII case and one trailing dot per name hash alike |
| NameLaws.CanonicalIffSameList | internal/merge/merge.go:407-427 | and the hashed bytes agree for no other lists of NUL-free names |
| NameLaws.TrailingDotIgnored | internal/compare/compare.go:450-470 | adding a trailing dot to any one name of a list leaves the hash as it is |
| MergeSpec.RejoinedFaithful | internal/merge/merge.go:213-219 | the arena's join and split return a name list unchanged if and only if it is non-empty and free of NUL |
| MergeSpec.MergeIsMap | internal/merge/merge.go:7-24 | exactly one record per distinct baseline address and none for others, namely the documented rule applied to the first baseline and first new record in file order |
| MergeRule.RuleOnRecords | internal/merge/merge.go:7-24 | between well-formed records the stored result is one of the two, names and FCrDNS flags included: the new one if the old status was re-crawled and it is has_ptr, noerror_empty or nxdomain or there was no PTR to lose, else the old one |
| MergeTwice.ClosedWellFormed | internal/store/writer.go:146-195 | every record of a closed file is well-formed, but for has_ptr records without names or with a NUL in one |
| MergeTable.LoadNewShard | internal/merge/merge.go:198-251 | arena, stable sort and in-place dedup yield a strictly ascending table holding the first record of every address; refused exactly when the names exceed 32-bit offsets |
| MergeTable.FindNew | internal/merge/merge.go:317-323 | the binary search finds an entry if and only if the new pass has the address, and then the first record's |
| Merge.TestAndSet | internal/merge/merge.go:306-310 | the bitmap test answers whether the address occurred before, and the update marks exactly that address |
| Merge.ApplyNew | internal/merge/merge.go:327-362 | the switch writes the documented record and advances exactly the counter of its fate, for every status code whose histogram index does not fault |
| Merge.MergeRecords | internal/merge/merge.go:305-377 | the writer receives the merged map in file order, counters grow by the fates of the deduplicated baseline, mergedCounts by the output histogram; required is only that no counted code is out of range |
| MergeFiles.MergeShard | internal/merge/merge.go:255-385 | accepted if and only if both files are usable, every refusal naming a true defect; the output file carries the baseline's identity and exactly the merged records; duplicates and unexpected addresses are counted exactly |
| MergeFiles.RefusedIffBlamed | internal/merge/merge.go:255-279 | the merge is refused if and only if one of the documented defects is present |
| MergeFiles.MergedFileIsMap | internal/merge/merge.go:7-24 | reading the merged file back gives, for every address, the stored form of the documented rule |
| MergeTwice.ScanUnmarked | internal/store/reader.go:131-188 | whatever bytes a file holds, no name the scan delivers contains a marker byte |
| MergeTwice.MergedFilesRead | internal/merge/merge.go:255-385 | merging files with names of at most 1004 bytes: the merged file is read back whole and cleanly, holds one record per baseline address, between well-formed records the winner itself, and has names of at most 1004 bytes again |
| MergeTwice.MergeShardTwice | internal/merge/merge.go:255-385 | two runs of the merge: whatever was merged is accepted again with the same new file, and the second file holds the same record as the first at every address |
| MergeFiles.ClosedStatusesAssigned | internal/store/writer.go:162 | files closed by the writer only hold assigned status codes, so neither merge nor compare can fault on them |
| MergeLaws.MergeIdempotent | internal/merge/merge.go:313-362 | for every mask, address by address, a second merge stores the same record |
| MergeLaws.PtrBalance | internal/merge/merge.go:327-362 | merged has_ptr count = deduplicated baseline has_ptr count + gained - removed |
| MergeTwice.PtrMovesAt | internal/merge/merge.go:327-362 | per address of the merged file: a baseline PTR is gone if and only if has_ptr was re-crawled and the first new record says nxdomain or noerror_empty; one appears if and only if the address was re-crawled and the first new record has a PTR |
| MergeLaws.FatesPartition | internal/merge/merge.go:313-362 | every baseline record has exactly one fate and the counters partition the re-crawled ones |
| Compare.LoadTable | internal/compare/compare.go:180-191 | for any order of equal addresses: strictly ascending targets, one per masked address, dropped duplicates counted, nothing dropped from a duplicate-free pass; records outside the mask may carry any code |
| Compare.JoinNewPass | internal/compare/compare.go:312-365 | every statistic grows by the number of old records its event befell, stated on the records behind the targets; unexpected records are those without a target, and new records = unexpected + duplicates + observed |
| Compare.CompareShard | internal/compare/compare.go:178-211 | field by field over one old record per masked address (all of them if none repeats): each matrix cell, the missing column, the target counts, changed and unchanged, the four FCrDNS cells and the gained ones; masked old records = targets + old duplicates |
| CompareRecords.OccursIffHappens | internal/compare/compare.go:272-281 | the packed flags and the stored hash of a target tell of every event what the old record itself does |
| CompareRun.SumRow | internal/compare/compare.go:440-446 | the row-sum loop adds up all nine cells |
| CompareRun.RowIsTargets | internal/compare/compare.go:191-211 | kept by every shard pair, whatever the totals hold before it: each old-status row, missing included, sums to its target count |
| CompareRun.CellsAreObserved | internal/compare/compare.go:312-365 | from any totals, the non-missing cells advance by the targets that met a new record, less those of code 8 |
| CompareRun.CrawledPtrPartition | internal/compare/compare.go:425-433 | kept by every shard pair: unchanged, changed, removed and transient partition the crawled has_ptr set, and the four FCrDNS cells sum to both-checked |
| CompareRun.GainedIsColumn | internal/compare/compare.go:347-354 | kept by every shard pair: the gained PTRs are the has_ptr column outside the has_ptr row, the confirmed among the checked among them |
| CompareRun.BalanceKept | internal/compare/compare.go:170-215 | all of these together with masked old records = targets + duplicates and new records = unexpected + duplicates + non-missing cells (+ code-8 strays), from one pair to the next |
| CompareRun.Run | internal/compare/compare.go:157-218 | over any number of shard pairs: fails if and only if some paired file is unreadable; otherwise lists compared, missing and truncated shards, and the report is balanced and counts, field by field, the old records of all pairs |
| CompareRun.CutFiles | internal/compare/compare.go:264-285 | a file cut at any byte behind its header is compared as a new side with its whole blocks, and accepted as an old side if and only if the cut falls between two blocks |
| CompareSpec.EventCountPermutation | internal/compare/compare.go:183-190 | the statistics do not depend on the order the unstable sort leaves |
| Agreement.CompareMergeAgree | internal/merge/merge.go:313-377 | on a duplicate-free baseline the gained, changed, unchanged, removed, grace-kept and missing records of merge are as many as the compare events, and as many records are matched as observed |
| Agreement.CountersAgree | internal/compare/compare.go:312-365 | the same on the counters themselves, from any starting values, and duplicates + unexpected of both packages advance alike |
| Agreement.MergeAndCompare | internal/merge/merge.go:255-385 | both tools run on the same two files: each accepts exactly its usable files, and if both do they report the same movement |
| Agreement.VerdictsAgreeIff | internal/merge/merge.go:328-335 | merge and compare give a NUL-free new has_ptr record the same unchanged verdict against every baseline record if and only if it has a name |
| Agreement.NamelessPtrDisagrees | internal/merge/merge.go:328-335 | a concrete nameless has_ptr record on which the two packages differ |
| Agreement.RespellingIsUnchanged | internal/compare/compare.go:327-332 | names that only changed in order, case or a trailing dot are unchanged for both packages |
| IpGen.IsReserved | internal/ipgen/ipgen.go:43-50 | the loop decides membership in some reserved block |
| IpGen.ReservedByOctets | internal/ipgen/ipgen.go:24-40 | the table is exactly the special-purpose blocks by octet prefix |
| IpGen.TotalRoutableIPv4 | internal/ipgen/ipgen.go:71-77 | the returned number is the cardinality of the non-reserved set, 3702258432 |
| IpGen.ShardsPartition | internal/ipgen/ipgen.go:186-195 | every sampled address is in exactly one shard, any other in none, and being sampled does not depend on the shard count |
| IpGen.SampleByHash | internal/ipgen/ipgen.go:186-195 | with sampling, the low half of the hash is compared with the threshold and the high half taken modulo the shard count (`HalvesOfWord` says which half is which) |
| IpGen.SampleGrows | internal/ipgen/ipgen.go:186-195 | a larger non-zero threshold gives a superset of the sample, within the routable space; what any shard of any layout visited is visited by exactly one shard of any other layout in the larger sample |
| IpGen.ShardSizesAddUp | internal/ipgen/ipgen.go:186-195 | shard sizes add up to the sample and, unsampled, to the routable space |
| IpGen.AddressesExact | internal/ipgen/ipgen.go:197-207 | the walk's list is strictly ascending and contains exactly the routable in-shard addresses from the start |
| IpGen.GenerateShardedFull | internal/ipgen/ipgen.go:211-265 | the loop terminates across reserved jumps and emits a prefix of that list, of exactly min(limit, length) addresses for a non-zero limit, fewer only on cancellation; every 131072nd emission is offered as cursor |
| IpGen.GenerateSequential | internal/ipgen/ipgen.go:111-139 | with a positive count, the one-shard unsampled walk with that limit |
| IpGen.CursorResumesExactly | cmd/rdns-crawler/main.go:238-243 | for any emitted address, +1 does not wrap, the sentinel 0 does not clash, and the resumed walk is exactly the remaining suffix |
| Pipeline.CountTargets | internal/store/targets.go:19-31 | the length of the filtered stream for a complete file, an error otherwise |
| Pipeline.StreamByPosition | internal/store/targets.go:58-83 | as many targets as masked records, and the masked record at a file position is the target numbered by how many came before it |
| PipelineLaws.StreamIsExactSlice | internal/store/targets.go:58-97 | in every reachable state the targets handed out are the filtered stream from skip on, cut only by limit or cancellation |
| PipelineLaws.CursorIsTrustworthy | internal/store/targets.go:90-104 | every cursor value covers only skipped or delivered targets, never decreases, never falls below the resume point; the final send never blocks and is the last value |
| PipelineOffers.EveryDuePositionOffered | internal/store/targets.go:90-95 | in every run, while the scan runs, every position at a multiple of the cadence behind the resume point reached the cursor writer unless its offer found the one-slot channel full, and nothing else did |
| PipelineOffers.CursorComes | internal/store/targets.go:90-95 | once the scan has passed such a position, some cursor value is written or on its way |
| PipelineOffers.KilledRunWroteWholeBlocks | internal/store/writer.go:136-143 | until it is closed, the sink has written a multiple of 65536 records |
| PipelineLaws.PipelineConserves | internal/crawler/crawler.go:75-101 | handed-out targets are, as a multiset, in flight, flushed or dropped; in flight is at most 1024 + pool + 4096 + 65536 |
| PipelineReach.ChannelsFill | cmd/rdns-crawler/main.go:634-657 | with enough targets some run fills the task channel to 1024 and some run the result channel to 4096 |
| PipelineLaws.CleanStopLosesLittle | cmd/rdns-crawler/main.go:634-657 | after a clean stop at most 1024 + pool size targets are lost |
| PipelineLaws.FinishedRunWroteAll | cmd/rdns-crawler/main.go:634-657 | an uncancelled run that finished wrote every target of its slice exactly once |
| PipelineLiveness.NoDeadlock | internal/crawler/crawler.go:53-102 | in every reachable state that is not done some step other than cancellation is possible |
| PipelineLiveness.RunsEnd | internal/crawler/crawler.go:53-102 | no run is longer than a number fixed by its start |
| Resume.NothingBelowIsMissing | cmd/rdns-crawler/main.go:309-320 | over any number of safe stops, everything more than one checkpoint below the cursor is on record |
| Resume.NoHoleAfterFinish | cmd/rdns-crawler/main.go:309-320 | once one run finishes uncancelled, every target of the filtered stream is recorded |
| ResumeSafety.EveryCleanStopSafeIff | cmd/rdns-crawler/main.go:309-320 | for every configuration and starting cursor: every clean stop is safe if and only if the pool has one worker or the slice is at most one checkpoint long, and the same holds of all stops, also in the middle of a run |
| ResumeSafety.OneWorkerFlushesInOrder | internal/crawler/crawler.go:53-102 | a single worker's file is always a prefix of the targets handed out, short of at most the channels, one block and one task |
| ResumeSafety.NoHoleByConfiguration | cmd/rdns-crawler/main.go:309-320 | runs that meet that condition may be stopped anywhere, any number of times: after one uncancelled, unlimited finish every target is recorded |
| Resume.CleanStopSafeIff | internal/crawler/crawler.go:80-94 | looking back at one clean stop of any configuration: it did harm if and only if a cancelled worker gave up a target more than one checkpoint below the persisted cursor |
| ResumeHole.HoleWhenExposed | cmd/rdns-crawler/main.go:309-320 | every configuration outside that condition has a run that stops cleanly, leaves the first target of its slice unrecorded, and leaves a cursor from which no run records it |
| ResumeCursor.FinishedCursor | internal/store/targets.go:98-104 | an uncancelled run that is done leaves the end of its slice as cursor, so it moves the cursor back if and only if the slice ends below it |
| ResumeCursor.NeverMovesBackIff | internal/store/targets.go:44-45 | with cancellation, no run of a configuration that resumes from cursor n leaves a smaller one if and only if n is 0, over all reachable states and over all orderly ends |

## Left out

- zstd, `bufio` and the file system: the codec is abstract and a file is a byte sequence, so write errors and partially written disks do not occur.
- Resuming a file whose session was killed: the code leaves a stale header and perhaps a torn block; sessions here end in `Close`.
- Names.ComputeHash: lowers only A to Z, where the code lowers any Unicode letter; names reach the store in presentation format, in which the DNS library escapes every byte outside printable ASCII.
- File discovery, shard-layout checks and progress output of merge and compare, and merge's loop over shard pairs; one merged pair at a time is modelled, with counters that accumulate.
- `internal/resolver` and the body of `process`: a worker may return any record for its target.
- Dotted-quad text: addresses travel as integers, so formatting, parsing and the text of the cursor files are not modelled.
- A scan error in the middle of `StreamTargets`: the file has been validated by `CountTargets` before, and the model scans it to its end.
- Percentages, TLD histograms, report rendering, `SampleThresholdForPercent`, timestamps and QPS timing.
- `GenerateRandom`, JSONL output, command-line parsing and dump formats.
- Holes of the plain `crawl` mode, which resumes without a rewind: only what the generator emits is stated.
- Collision freedom of FNV-1a, which is false; only the sound direction is claimed.
