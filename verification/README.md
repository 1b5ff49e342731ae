# Verified models of libguestfs tool internals

A Dafny model of the parts of libguestfs (its tools, its image builder and the utility code
they share) whose correctness rests on an argument rather than on a library call, with proofs
of what that code is for. `dafny verify dfyconfig.toml` checks the whole project.

## What is modelled

* **The chained hash table** (`gnulib/lib/hash.c`). `HashNodes` has the linked nodes and the
  relinking of a chain in place; `HashTable` has the table itself: an array of bucket heads,
  overflow chains, the list of spare nodes and the counters, all updated by the same steps as
  in C. The allocator is an object whose k-th call succeeds or fails as an arbitrary function
  says, so that a statement holds for every pattern of failures. Ghost fields say which nodes
  form which chain and which are spare; every node knows its place, which is what keeps the
  chains of two tables that share one list of spare nodes apart. `HashTransfer` is the
  specification on values: moving all entries into another array, running out of nodes half
  way, and undoing the move in two passes. Its main result is the claim made in the comment at
  hash.c:907-919, by counting: an undo never runs out of nodes, so the `abort` at hash.c:923
  is unreachable. `HashContents` and `HashOrder` say what a table holds and in which order a
  walk meets it; `HashTuning` and `HashPrimes` choose its sizes.
* **Parallel xz decompression** (`builder/pxzcat-c.c`). `Pxzcat` is a state machine over the
  interleaved steps of any number of workers; the decoder hands out any amounts, the kernel
  writes any part of a buffer, and any step may fail. `OutputFile` has the loops under it:
  the zero-filled creation of the file, writing in spite of short writes, and `is_zero`.
* **Human-readable sizes and their reading** (`gnulib/lib/human.c`, `gnulib/lib/xstrtol.c`,
  `parse_size` in `make-fs/make-fs.c`). `HumanRounding` proves that a number, one decimal and a
  four-valued code describe an exact quotient through every division by an even base; `Human`
  is the whole integer path in 64-bit arithmetic, down to the bytes in the buffer; `Xstrtol`
  reads sizes back. Products and additions wrap explicitly where the C code's can.
* **The virt-builder index format** (`builder/index_parser.ml`, `builder/index-scan.l`,
  `builder/index-parse.y`). `IndexScan`, `IndexGrammar` and `IndexEntry` are the scanner, the
  grammar, and the printing and building of entries; `IndexChannel` has the parts that work
  step by step; `IndexReading` says what is accepted and refused of any text; `IndexRoundTrip`,
  `IndexSigned` and `IndexSignedEntries` have the other main results.
* **The transitions virt-builder plans with** (`builder/builder.ml`), in `Planner`.
* **Smaller loops**: CSV output (`Csv`), the comparison of two guests (`Diff`), and the follower
  state of virt-tail (`Tail`).

`Wrappers` holds what several modules share.

## Where the code differs from what is said about it

Each item has a lemma at an input and the exact condition under which the code does what is said.

* `human_readable` describes its quotient exactly if and only if two products fit in 64 bits
  (`HumanRounding.DivideExact`). When one wraps, rounding down is still right; rounding to nearest
  is wrong exactly when ten times the remainder wraps and the value is to be rounded up; rounding
  up is wrong for three remainders when the divisor is above 2^63
  (`HumanRounding.RoundsRightExact`, `Human.WrappedExact`, and the contract of
  `Human.HumanReadable`). Three quarters of a 2^63-byte unit print as 0 (`Human.WrapMisrounds`).
  With an odd base the code would be wrong without any wrapping
  (`HumanRounding.OddBaseLosesTies`); both bases in use are even.
* Without autoscaling the suffix names the least power of the base that is not below the block
  size if and only if that size is at most the sixth power, or base 1000 and a little more
  (`Human.BlockUnitExact`); blocks of 2^61 bytes are shown as yobibytes (`Human.BlockUnitWraps`).
* An index wrapped in a cleartext signature reads like the bare one, except that one without any
  section is refused between the markers (`IndexSigned.SignedReads`). Without an armor header
  line everything up to the first blank line of the index is eaten, and the rest is accepted: the
  text reads the same if and only if it has a blank line, says nothing before the first one and
  something after it (`IndexSigned.NoHeaderExact`). A printed index has a blank line after every
  entry, so it loses its first entry without a word (`IndexSignedEntries.FirstEntryLost`, and
  `IndexSignedEntries.TwoEntries` at an input).
* A growth of the hash table makes it larger if and only if its tuning asks for more buckets
  than it has, before rounding up (`HashTuning.GrowthExact`). The default tuning always does
  (`HashTuning.GrowthIsStrict`). A tuning that passes the check need not: with one, a table of 11
  buckets "grows" to 11 and one of 13 shrinks to 11 (`HashTuning.GrowthNeedNotBeStrict`).
* The transitions of virt-builder tell the cached template by its tag. Its file is never changed
  in place if and only if neither the output nor a temporary name that a step starts from is the
  name of that file (`Planner.TemplateFileExact`); with the template's own name as the output, a
  run that reaches the goal resizes the template itself (`Planner.TemplateResized`).
* virt-diff with checksums reports a changed content as a mere change of stats exactly when the
  stats or attributes differ too but neither the size nor the seconds of a time do
  (`Diff.DetailIs`, at an input `Diff.ContentChangeMissed`).

## Model

| member | source | states |
|---|---|---|
| HashTransfer.RehashKeeps | gnulib/lib/hash.c:850-927 | for every in-range hasher and every pattern of allocation failures a rehash never aborts, keeps exactly the same entries in their buckets, the counter and the number of nodes owned; it fails only when a call to malloc has, and then the number of buckets and of used buckets are the old ones |
| HashTransfer.UndoSucceeds | gnulib/lib/hash.c:907-926 | from any consistent half-way state with enough nodes the two passes succeed, ask the allocator for nothing, and bring every entry back |
| HashTransfer.SpareNode | gnulib/lib/hash.c:907-926 | the counting argument: when only heads are left to go back and one collides, the list of spare nodes is not empty |
| HashTransfer.SafeTransfer | gnulib/lib/hash.c:775-822 | the pass that keeps heads in place cannot fail, allocates nothing, and leaves only heads |
| HashTransfer.HeadsReturn | gnulib/lib/hash.c:819-846 | the second pass cannot fail and allocates nothing |
| HashTransfer.TransferKeeps | gnulib/lib/hash.c:775-848 | a transfer, finished or stopped half way, loses no entry and no node and keeps both arrays and counters consistent |
| HashTransfer.TransferFails | gnulib/lib/hash.c:829-832 | a transfer fails only right after a failed call to malloc |
| HashTransfer.TransferEmpties | gnulib/lib/hash.c:775-848 | a successful transfer of heads and overflow leaves the source array empty |
| HashTransfer.AllocateEntry | gnulib/lib/hash.c:666-686 | a node is conserved; a failure means that no node was spare; a spare node costs no call |
| HashNodes.Link | gnulib/lib/hash.c:800-806 | relinking a node behind an occupied head gives a well-linked chain whose second entry is the new one |
| HashNodes.Unchain | gnulib/lib/hash.c:753-758 | bypassing a node in place gives a well-linked chain without that entry, and sets that node free |
| HashNodes.BumpHead | gnulib/lib/hash.c:725-732 | the first overflow entry moves into the head; the rest of the chain is intact and one node falls free |
| HashTable.TransferEntries | gnulib/lib/hash.c:775-848 | on linked nodes, in place: the chains, counters, spare nodes and allocator calls of both tables end up as the transfer on values says, with all chains and the list of spare nodes well linked and disjoint |
| HashTable.TransferBucket | gnulib/lib/hash.c:781-846 | the same for one bucket, overflow first |
| HashTable.TransferOverflow | gnulib/lib/hash.c:793-820 | the overflow loop leaves only the head behind and allocates no node |
| HashTable.TransferHead | gnulib/lib/hash.c:819-845 | the head moves, taking a node only if it collides; on failure nothing has moved |
| HashTable.Table.AllocateEntry | gnulib/lib/hash.c:666-686 | a spare node if there is one, else a new one from the allocator, else none |
| HashTable.Table.FreeEntry | gnulib/lib/hash.c:691-697 | the node becomes the first spare one, the others stay linked behind it |
| HashTable.Table.MoveInto | gnulib/lib/hash.c:861-926 | the array, counter, spare nodes and allocator calls after a rehash are those of the rehash on values; the abort is unreachable |
| HashTable.Table.Undo | gnulib/lib/hash.c:920-923 | the two passes in place are the two transfers on values |
| HashTable.Table.Rehash | gnulib/lib/hash.c:850-927 | keeps validity, the entries, their number and the nodes owned; success gives the size asked for, failure keeps array and counter and happens only when an allocation failed or no such array can exist |
| HashTable.Table.Initialize | gnulib/lib/hash.c:518-571 | an empty valid table of the size the candidate asks for; null if the tuning is out of bounds, and otherwise only when an allocation failed or no such array can exist |
| HashTable.Table.FindEntry | gnulib/lib/hash.c:705-767 | finds a match exactly when the table holds one, though only one bucket is searched, and where it is linked |
| HashTable.Table.Lookup | gnulib/lib/hash.c:247-261 | NULL exactly when nothing in the table matches, else an entry of the table that does |
| HashTable.Table.InsertIfAbsent | gnulib/lib/hash.c:929-1009 | 0 exactly when a match was there, which leaves everything as it was, 1 for an insertion, -1 only when an allocation failed or no array of the size needed can exist; contents change only by an insertion; validity and nodes are kept; the abort is unreachable; an insertion past the growth threshold, before and after the check of the tuning, gives the table the size of the growth candidate, which is larger with the default tuning and more than four fifths of the buckets in use; otherwise the size stays |
| HashTable.Table.GrowAndAdd | gnulib/lib/hash.c:948-1008 | the same for an entry known to be absent |
| HashTable.Table.RoomNoGrowth | gnulib/lib/hash.h:142-149 | a table sized for some entries that holds fewer has not reached its threshold |
| HashTable.Table.Grow | gnulib/lib/hash.c:955-977 | rehashes exactly when the threshold is reached under the checked tuning, to the size of the growth candidate; keeps the contents; the table becomes larger exactly when the tuning asks for more, which the default one does |
| HashTable.Table.Add | gnulib/lib/hash.c:984-1008 | an absent entry is in the table afterwards, or the contents are unchanged and the allocator has failed; validity and nodes are kept |
| HashTable.Table.Insert | gnulib/lib/hash.c:1011-1019 | the match already there, with nothing changed, or else the entry itself, now in the table, or NULL with the contents unchanged; the growth is that of InsertIfAbsent |
| HashTable.Table.Remove | gnulib/lib/hash.c:1021-1079 | removes exactly the matching entry, or nothing at all; validity is kept; when a bucket is emptied past the shrink threshold the table gets the size of the shrink candidate, or else that failed and all spare nodes have been given back; otherwise the size stays |
| HashTable.Table.Unlink | gnulib/lib/hash.c:718-762 | takes out just the entry found, and makes one node spare unless the bucket is emptied |
| HashTable.Table.Shrink | gnulib/lib/hash.c:1036-1075 | past the threshold under the checked tuning the table gets the size of the shrink candidate, or an allocation failed, or no such array can exist, and all spare nodes have been given back; the contents are kept |
| HashTable.Table.GiveBackSpares | gnulib/lib/hash.c:1063-1071 | walks the whole list of spare nodes and leaves it empty |
| HashTable.Table.Clear | gnulib/lib/hash.c:573-609 | empties the table in place; the freer sees every entry exactly once; all overflow nodes become spare |
| HashTable.Table.TableOk | gnulib/lib/hash.c:190-217 | true exactly when both counters are right |
| HashTable.Table.GetFirst | gnulib/lib/hash.c:265-278 | the first entry of a walk, never an abort |
| HashTable.Table.GetNext | gnulib/lib/hash.c:280-303 | the entry that follows in the walk, found again from the entry alone |
| HashTable.Table.GetEntries | gnulib/lib/hash.c:305-327 | the first entries of the walk, up to the size of the buffer |
| HashTable.Table.Walk | gnulib/lib/hash.h:91-108 | a walk terminates and meets every entry exactly once, in the order of GetEntries |
| HashContents.MatchInBucket | gnulib/lib/hash.c:705-767 | only the bucket an entry hashes to can hold a match |
| HashContents.InsertKeeps | gnulib/lib/hash.c:984-1008 | adding an absent entry keeps placement, counters, and that no two entries compare equal |
| HashContents.DropKeeps | gnulib/lib/hash.c:718-762 | the same for taking an entry out |
| HashTuning.NoGrowthBefore | gnulib/lib/hash.h:142-149 | an array sized for a number of entries does not reach its growth threshold before it holds that many; InsertIfAbsent and RoomNoGrowth say it of tables |
| HashTuning.GrowthIsStrict | gnulib/lib/hash.c:955-976 | with the default tuning a successful growth makes the array longer |
| HashTuning.GrowthExact | gnulib/lib/hash.c:955-976 | a growth makes the array longer if and only if the tuning asks for more buckets than there are |
| HashTuning.AsksFor | gnulib/lib/hash.c:961-966 | a table asks for its number of buckets times the growth or shrink factor, whichever way its tuning counts, but for what is lost in cutting the candidate to a whole number |
| HashTuning.DefaultReached | gnulib/lib/hash.c:948-953 | with the default tuning a table grows past four fifths of its buckets, and never shrinks |
| HashTuning.DefaultAsksForMore | gnulib/lib/hash.c:955-976 | the default tuning does, for every size |
| HashTuning.GrowthNeedNotBeStrict | gnulib/lib/hash.c:485-492 | a tuning that passes the check, with which a table of 11 buckets past its threshold asks for 11 again and one of 13 for 11 |
| HashTuning.ComputeBucketSize | gnulib/lib/hash.c:502-516 | the least prime from 11 on that is not below what is wanted, or 0 when no such array can exist |
| HashTuning.CheckTuning | gnulib/lib/hash.c:470-496 | a sensible tuning: the given one exactly if it is sensible, else the default one |
| HashTuning.SensibleExact | gnulib/lib/hash.c:470-496 | the check of a tuning in plain numbers |
| HashPrimes.IsPrime | gnulib/lib/hash.c:402-416 | terminates, and decides primality for every odd 64-bit candidate from 11 on, although the running square may wrap |
| HashPrimes.SquareStep | gnulib/lib/hash.c:408-413 | the running square is the divisor's square, wrapped |
| HashPrimes.TrialDivision | gnulib/lib/hash.c:408-415 | odd divisors up to the square root decide primality |
| HashPrimes.StopsThere | gnulib/lib/hash.c:408-413 | past the squares that do not wrap, a divisor at which the loop must stop, short of the candidate |
| HashPrimes.NextPrime | gnulib/lib/hash.c:421-435 | terminates at the least prime not below the larger of the candidate and 10, or at SIZE_MAX when there is none that fits |
| OutputFile.IsZero | lib/guestfs-internal-all.h:98-111 | true exactly on all-zero buffers |
| OutputFile.Overlap | lib/guestfs-internal-all.h:107-108 | after sixteen zeros, equality with itself sixteen bytes on means all zeros |
| OutputFile.File.Xpwrite | builder/pxzcat-c.c:489-505 | all of the buffer is written, whatever the short writes, or a part of it when a call has failed |
| OutputFile.WrittenTwice | builder/pxzcat-c.c:495-502 | two adjoining writes are one |
| OutputFile.File.Create | builder/pxzcat-c.c:192-214 | the file is exactly as many zeros as the index records, whatever it held, unless a call has failed |
| Pxzcat.AllSucceed | builder/pxzcat-c.c:508-688 | in every interleaving of any positive number of workers, if all report success the file is the blocks in index order, each claimed exactly once |
| Pxzcat.NeverWrong | builder/pxzcat-c.c:539-687 | in every run, failures included, each byte is zero or final, and no two workers hold one block |
| Pxzcat.FailureHasCause | builder/pxzcat-c.c:529-687 | in every run a worker reports failure only after a call of its own has failed or its decoder has reported an error |
| Pxzcat.FailureIsReported | builder/pxzcat-c.c:529-687 | and whoever has, never reports success |
| Pxzcat.CanSucceed | builder/pxzcat-c.c:540-687 | from every state that a run reaches with no worker failing, some continuation ends with every worker reporting success: no deadlock |
| Pxzcat.SuccessfulRun | builder/pxzcat-c.c:540-687 | for all blocks and any number of workers some run ends with all of them reporting success and the file complete |
| Pxzcat.RunInv | builder/pxzcat-c.c:508-688 | the invariant holds in every reachable state |
| Pxzcat.StepKeepsInv | builder/pxzcat-c.c:539-687 | every step of every worker keeps it |
| Pxzcat.WriteGrows | builder/pxzcat-c.c:658-664 | a chunk written at the worker's position puts only final bytes into the file |
| Pxzcat.SkipSettles | builder/pxzcat-c.c:655-664 | a chunk of zeros may be skipped |
| HumanRounding.ScaleDescribes | gnulib/lib/human.c:281-292 | dividing by an even base keeps the three numbers an exact description of the quotient |
| HumanRounding.OddBaseLosesTies | gnulib/lib/human.c:281-292 | for an odd base this fails |
| HumanRounding.DivideExact | gnulib/lib/human.c:206-215 | the first division is exact if and only if neither product wraps |
| HumanRounding.RoundTenths | gnulib/lib/human.c:296-308 | from the code alone the tenths are the exact value rounded, half to even, up or down |
| HumanRounding.RoundUnits | gnulib/lib/human.c:322-326 | the same for the units |
| HumanRounding.UnitsExact | gnulib/lib/human.c:322-326 | the exact remainder decides the one right choice between rounding up and not |
| HumanRounding.RoundsRightExact | gnulib/lib/human.c:206-215 | rounding to units after a division whose products may wrap is right if and only if: rounding down; to nearest, ten times the remainder fits or the value is not to be rounded up; up, the remainder is not one of three |
| HumanRounding.Coarser | gnulib/lib/human.c:310-326 | a number rounded to tenths that has none is correctly rounded to units |
| HumanRounding.Carry | gnulib/lib/human.c:328-339 | reaching the base carries into 1.0 of the next unit without rounding twice |
| Human.Adjust | gnulib/lib/human.c:192-215 | taken exactly when the ratio of the block sizes is whole and fits, and then an exact description |
| Human.FractionIs | gnulib/lib/human.c:185-191 | the fraction described is n times the one block size over the other |
| Human.WrapCheck | gnulib/lib/human.c:197-198 | dividing back detects exactly the products that do not fit |
| Human.Autoscale | gnulib/lib/human.c:275-292 | the loop keeps the description and ends below the base or at the largest unit |
| Human.RoundFirst | gnulib/lib/human.c:294-318 | one digit before the point: rounded to tenths, or a whole number that is final |
| Human.Round | gnulib/lib/human.c:294-340 | the number chosen is the exact one rounded once in the unit shown, and the unit fits it |
| Human.WrappedExact | gnulib/lib/human.c:206-215 | when a product wraps, the number printed is right if and only if the remainder and the divisor meet the condition of RoundsRight |
| Human.WrapMisrounds | gnulib/lib/human.c:206-215 | an input at which it does not |
| Human.BlockExponent | gnulib/lib/human.c:358-365 | the exponent of the least power of the base not below the block size; beyond the sixth power, where the products wrap, 7 or 8 |
| Human.BlockUnitExact | gnulib/lib/human.c:358-365 | that exponent is the right one if and only if the block size is at most the sixth power, or 10^21 modulo 2^64 in powers of 1000 |
| Human.BlockUnitWraps | gnulib/lib/human.c:358-365 | an input at which it is not |
| Human.SuffixIs | gnulib/lib/human.c:367-380 | the suffix in plain text, for every option |
| Human.HumanReadable | gnulib/lib/human.c:149-386 | the text in the buffer is the number chosen with its suffix and never runs past either end; that number is the exact value rounded once in the unit shown, exactly when the remainder and the divisor of the first division meet the condition of RoundsRight, as they do whenever no product wraps |
| Human.WriteText | gnulib/lib/human.c:310-349 | the text of a number, backwards from the suffix |
| Decimal.WriteDigits | gnulib/lib/human.c:344-349 | the digits of the number, and nothing else touched |
| Decimal.NumeralValue | gnulib/lib/human.c:344-349 | the digits written stand for the number, without leading zero |
| Xstrtol.BkmScale | gnulib/lib/xstrtol.c:46-61 | the product cut at the maximum; overflow exactly when it was cut |
| Xstrtol.BkmScaleByPower | gnulib/lib/xstrtol.c:63-70 | the same for a power, as if the whole product had been formed |
| Xstrtol.SaturateTwice | gnulib/lib/xstrtol.c:110-115 | scaling a number cut already gives what the number itself would give |
| Xstrtol.Xstrtol | gnulib/lib/xstrtol.c:74-236 | the true product of number and suffix, cut at the maximum, with overflow, bad suffix and end reported exactly, for every suffix and both bases |
| Xstrtol.PrintedReadsBack | make-fs/make-fs.c:625-653 | a size printed by the tools without a point reads back as its number times its unit if that fits, within half a unit of the exact size, and exactly without a unit; with a point it is refused |
| Xstrtol.SizeReadBack | make-fs/make-fs.c:625-653 | from a number of blocks by way of the printed text to the size parsed: the number times its unit exactly if it has no point and fits, within half a unit, and the size itself without a unit |
| Xstrtol.ReadsBack | make-fs/make-fs.c:625-653 | a numeral with one of the printed letters reads as the product, or is refused when that does not fit |
| Xstrtol.SizeRead | make-fs/make-fs.c:625-653 | every size in plain numbers: digits, a letter of kKMGTPEZY, then nothing, iB, B or D; the product is the size, behind a plus sign it is added to the estimate in 64 bits; without digits the number is 1; exactly the rest is refused |
| Xstrtol.SuffixRead | gnulib/lib/xstrtol.c:138-235 | the same for every set of valid suffixes, with b, B, c and w and the lower-case letters |
| Xstrtol.NegativeRefused | gnulib/lib/xstrtol.c:90-98 | a minus sign is refused, also behind white space |
| IndexRoundTrip.IndexRoundTrip | builder/index_parser.ml:92-322 | writing any list of well-formed entries and reading it back gives the same entries, whatever lines their notes hold, but for the paths of files and signatures, which come out beside the URI of the index |
| IndexRoundTrip.EntryTextIs | builder/index_parser.ml:281-322 | what is printed for an entry is the text of its section and fields |
| IndexRoundTrip.EntryFound | builder/index_parser.ml:92-244 | an entry built from its own fields is that entry, with its paths beside the URI |
| IndexRoundTrip.NotesFound | builder/index_parser.ml:193-205 | collecting and sorting the printed notes gives them back |
| IndexRoundTrip.FieldsNotRepeated | builder/index_parser.ml:71-90 | a printed entry is not refused for a repeated field |
| IndexRoundTrip.SectionsNotRepeated | builder/index_parser.ml:48-69 | nor a printed index for a repeated section |
| IndexChannel.Channel.WriteEntry | builder/index_parser.ml:281-322 | the printing steps put exactly the entry's text on the channel |
| IndexChannel.FindRepeatedSection | builder/index_parser.ml:48-69 | the table of pairs finds a repetition exactly when there is one |
| IndexChannel.FindRepeatedField | builder/index_parser.ml:71-90 | the same for fields |
| IndexReading.GetIndexExact | builder/index_parser.ml:36-92 | an index is refused exactly for a syntax error, two sections of one name and architecture, two fields of one key and subkey, or a section that makes no entry; otherwise every section makes its entry, in order |
| IndexReading.EntryRefused | builder/index_parser.ml:92-276 | a section makes no entry exactly when it has no file, architecture or size, a path that is not relative, a number that is none or does not fit, or hidden is neither true nor false |
| IndexReading.EntryFields | builder/index_parser.ml:92-244 | what every field of an entry is, with what it is taken to be when the section does not say: revision 1, not hidden; a SHA-512 checksum under either name; notes in the order of their languages |
| IndexReading.SortOrders | builder/index_parser.ml:201-205 | sorting keeps the notes and puts them in order |
| IndexReading.WordsAre | builder/index_parser.ml:214-220 | the words of any aliases have no space and give the aliases back, put between spaces |
| IndexEntry.ParseIntText | builder/index_parser.ml:137-143 | a printed number within range reads back |
| IndexEntry.AbsoluteUri | builder/index_parser.ml:253-276 | a path is refused exactly when it is empty, contains "://" or starts with a slash; otherwise it is put behind the URI up to its last slash, or behind the URI and a slash when it has none |
| IndexEntry.WordsSpaced | builder/index_parser.ml:214-220 | words without spaces, printed between spaces, are split again |
| IndexScan.EatPrologueLoop | builder/index-scan.l:111-123 | the loop over characters ends where its specification says |
| IndexScan.ScanSection | builder/index-scan.l:80-85 | a printed header scans as one token |
| IndexScan.ScanField | builder/index-scan.l:87-103 | a printed field line scans as its key, subkey and value |
| IndexScan.ScanCont | builder/index-scan.l:105-109 | any line behind a blank is a continuation, whatever it looks like |
| IndexReading.LineExact | builder/index-scan.l:74-109 | every line but the two markers has exactly the token its pattern calls for |
| IndexGrammar.SectionsRoundTrip | builder/index-parse.y:106-146 | any legal sections are read back from their text |
| IndexGrammar.ParseManySections | builder/index-parse.y:114-146 | the grammar takes the tokens of sections apart into exactly those sections |
| IndexGrammar.JoinSplit | builder/index-parse.y:45-65 | joining the lines of a value with newlines gives the value |
| IndexSigned.SignedReads | builder/index-scan.l:111-132 | with at least one armor header, plain lines and any trailer, the signed form reads as the bare one, unless that is empty |
| IndexSigned.SignedSections | builder/index-scan.l:111-132 | a printed index of any sections reads the same when it is signed with an armor header |
| IndexSigned.ParseBetween | builder/index-parse.y:106-118 | between the markers the grammar accepts what it accepts bare, except nothing |
| IndexSigned.EatHeaders | builder/index-scan.l:115-120 | the prologue ends at the first blank line after a header |
| IndexSigned.NoHeaderIsRejected | builder/index-scan.l:115-120 | without a header, an index that has no blank line is eaten and refused, whatever blank lines the trailer has |
| IndexSigned.NoHeaderReads | builder/index-scan.l:115-120 | without a header, what follows the first blank line of the index is read as if the rest were not there |
| IndexSigned.NoHeaderExact | builder/index-scan.l:115-120 | without a header a readable index reads the same if and only if it says nothing before its first blank line and something after it |
| IndexSigned.TokensFrom | builder/index-parse.y:106-146 | the sections read tell the tokens they were read from |
| IndexSigned.FirstSectionLost | builder/index-scan.l:115-120 | without a header a printed index loses its first section |
| IndexSignedEntries.SignedRoundTrip | builder/index_parser.ml:92-322 | writing any entries, signing the text with an armor header and reading it back gives the same entries with their paths beside the URI |
| IndexSignedEntries.FirstEntryLost | builder/index-scan.l:115-120 | signed without an armor header, any printed index loses its first entry, and is refused if that was the only one |
| IndexSignedEntries.TwoEntries | builder/index-scan.l:115-120 | an index of two entries of which one is read |
| Planner.Transitions | builder/builder.ml:435-574 | the list built by pushing holds exactly the steps of the transition relation |
| Planner.StepOnViews | builder/builder.ml:503-570 | every transition acts on a state only through its template and compression tags, file, size and format, as the state machine on these does |
| Planner.StepReal | builder/builder.ml:503-570 | and every step of that state machine is one that a transition takes |
| Planner.PlansAreSafe | builder/builder.ml:503-570 | in every run, whatever the names: the template tag only before the first step, in-place tasks never on a tagged template, no compressed input where an image is read, a size that is the original or the requested one and never shrinks |
| Planner.TemplateFileExact | builder/builder.ml:503-570 | no run changes the file of the template in place if and only if neither the output nor a temporary name a step starts from is its name |
| Planner.FileElsewhere | builder/builder.ml:503-570 | with such names every step after the first starts from another file |
| Planner.TemplateResized | builder/builder.ml:556-558 | with the template as output, a run that reaches the goal and resizes the template in place |
| Planner.PlanExists | builder/builder.ml:360-435 | from every start and for every three temporary names other than the output the goal is reached in exactly the stated number of steps, at most three |
| Planner.NoShorterPlan | builder/builder.ml:503-570 | and in no fewer, with such names |
| Planner.ThreeStepsNeeded | builder/builder.ml:545-558 | some starts need three |
| Csv.CsvRoundTrip | df/output.c:207-241 | a reader after section 2 of RFC 4180 recovers any rows of any fields |
| Csv.FieldRoundTrip | df/output.c:207-241 | the same for one field in front of any separator |
| Csv.BareField | df/output.c:207-241 | a field is put out bare exactly when it has no blank, quote, newline or comma |
| Csv.Output.WriteCsvField | df/output.c:210-241 | the characters put out are the field's text |
| Csv.Output.OutputString | diff/diff.c:890-966 | the same with the separator before every field but the first |
| Csv.Output.OutputLine | diff/diff.c:890-966 | a line of fields is one record |
| Diff.DiffGuests | diff/diff.c:608-658 | the loop with two cursors comes upon the events of the merge |
| Diff.MergeIs | diff/diff.c:608-658 | for strictly sorted trees: deleted are exactly the paths of the first only, added of the second only, common paths are compared once each, all in order |
| Diff.MergeSwaps | diff/diff.c:608-658 | swapping the trees swaps deleted and added, sorted or not |
| Diff.DetailIs | diff/diff.c:694-776 | between visited files the assertions of diff hold, as a corollary of what VisitEntry keeps; a pair is reported as the same, and its contents as changed, exactly when they are, for every combination of checksums |
| Diff.NothingSaid | diff/diff.c:538-566 | of two files as found nothing is said exactly when all that the options compare agrees |
| Diff.FlattenedSame | diff/diff.c:545-566 | flattening makes two stats equal exactly when they agree in all that the options compare |
| Diff.ContentChangeMissed | diff/diff.c:694-727 | a pair of files with other contents that is reported as a change of stats |
| Diff.OnlyRegularDiffed | diff/diff.c:769-776 | in a comparison of visited trees contents are only ever compared of two regular files |
| Diff.Tree.VisitEntry | diff/diff.c:510-597 | the growing array gains exactly the flattened file, with a checksum for regular files only; exactly which failures are reported and what each leaves |
| Tail.Tailer.CheckFiles | tail/tail.c:323-418 | of each file one pass prints nothing when its time and size are as before, the new content when it has grown by at most 10000 bytes, and else its last lines, all of it under the name of the file; it remembers each file's time and size |
| Tail.FollowedFile | tail/tail.c:323-418 | over any passes over any files, once a size is recorded and while that file is only appended to, what is printed of it is exactly what was appended |
| Tail.NothingLost | tail/tail.c:364-416 | the same for one file |
| Tail.PassIndependent | tail/tail.c:325-418 | a pass prints for each file what that file alone calls for |
| Tail.PassHeaded | tail/tail.c:344-352 | what a pass prints of a file stands under that file's name, which is printed only when it changes |

## Left out

- Calls into the library and its daemons, option parsing, usage text, downloading, signature
  checking and the writing of XML: no property of their own.
- `hash_free`, `hash_do_for_each` and the statistics: they walk the buckets the way `hash_clear`,
  the walk and `hash_table_ok` do, and keep nothing. Freed memory is simply dropped.
- `hash_string` and `raw_hasher`: every deterministic hasher in range is covered. Obstacks: a
  failed allocation ends the program there, so nothing has to be undone.
- A hasher out of range and the insertion of a null pointer, on which the hash table aborts: the
  one is excluded by the type of hashers, the other by a precondition.
- Rounding of `float` in the tuning of the hash table: exact rationals instead.
- HashTable.Table.GetNext: has a ghost argument for the position of the entry in the walk, used only to state the contract; the code finds the entry again without it.
- HashTuning.GrowthIsStrict: is about the default tuning only; GrowthExact has the condition for the others.
- liblzma and `parse_indexes`: the decoder is abstract, and a block's output has the length the
  index records for it. `pwrite` writes at least one byte or fails. Reading the compressed
  file appears only as the amounts decoded and as failures.
- Human.HumanReadable: covers the integer path with the point as decimal separator and no digit grouping; the floating point path and the locale are not modelled.
- `adjust_value`, `group_number`, `humblock` and `human_options`.
- Xstrtol.Xstrtol: covers the unsigned instance; what `strtoull` makes of the digits is a parameter, of any size.
- IndexEntry.ParseIntText: reads decimal numerals only; the hexadecimal, octal and binary forms that OCaml's `int_of_string` also takes are not modelled.
- The template mode of the index parser, guessed architectures, proxies and signature checkers
  in an entry, the counter of comments, and where the scanner goes on after a line of no known
  form (the grammar has refused by then). No NUL bytes and no failed allocation in the parser.
- The operator `//` on paths is not part of the repository; it is taken to be `Filename.concat`, as
  in builder/templates/make-template.ml:98, which puts no slash behind an empty directory.
- The search for the cheapest plan and the weights of tasks: only the transitions and the goal.
- The list of changed fields that virt-diff prints, and output that is not CSV.
- The polling loop of virt-tail around a pass, the content of the last lines it prints, and its
  exit when a file cannot be examined for another reason than being absent.
- Diff.DetailIs: takes the comparison of two stat structures to be equality of all their fields; the generated function that compares them is not part of this model.
