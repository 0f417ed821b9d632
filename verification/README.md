# SECTOR: proofs beside the store

SECTOR answers nearest-neighbour queries from program-once flash. A builder writes one volume
image: a codebook and its copies, product-quantised codes in 512-byte blocks, higher-precision
records in blocks of their own, a CRC word per block, and a manifest in one of two slots. A
query scans the codes into a bounded heap, then rescores the best against the records,
dropping any whose block fails its CRC. An append adds whole blocks and installs a manifest in
the spare slot. Around these stand an erasure codec, a CRC, a parity-budget allocator and a
search for a good labelling of the centroids.

The project models these parts and proves what each is for. Byte images are `seq<bv8>`, CRC
words `bv32`. Integers are unbounded except where the source's width decides the outcome: the
wrapping 32-bit score sums (`Scan.Wrap`), the 32-bit region fields and the 16-bit manifest
fields (`Emit.RegionAt`, `Emit.ManifestOf`), and the address-space check of
`RegionDesc.Validate`.

## How the files fit

| files | what they hold |
|---|---|
| `gf`, `linear`, `gauss`, `cauchy`, `rs` | the field from its table builder, Gauss-Jordan in place, independence of Cauchy rows, the codec |
| `crc` | the table form against the bit register, and burst detection |
| `ranking`, `heap`, `scan`, `rerank`, `query` | the order on candidates, the array heap, the scans, stage two, one query |
| `flash`, `codec`, `region`, `manifest`, `layout`, `volume` | flash operations and their tears, stored forms, geometry, the invariant of a volume |
| `blocks`, `append`, `crash`, `atomicity`, `tears` | the append: its plan and operations, what any crash leaves, what a torn manifest slot can read as |
| `lifecycle`, `runs`, `orphans`, `reports` | whole lives of a volume, what an append cut short leaves for the next, what a completed one reports |
| `room`, `overrun`, `capacity` | when a planned append has room, what happens when it has not, and for which geometries the check is enough |
| `emit`, `built`, `wide` | the image builder, what a fresh image is, and what becomes of records wider than a block |
| `source`, `search`, `verify` | the readers, a query over them, and the integrity sweep |
| `envelope`, `allocate`, `exhaustive` | the rate envelope, water-filling, the search it is checked against |
| `labels` | the label permutation |
| `arith`, `options` | integer facts, and the two result shapes |

A loop that changes state is a method proved against a function of the state before, and the
properties are lemmas about that function. Flash is a byte image with two operations: a
program that may only clear bits, and an erase of one of the two manifest slots. Power loss
leaves any bit pattern between the old content and the new in the range of the operation
under way (`Flash.Torn`).

A volume has two invariants. `Volumes.Usable(img, m, h)`: the regions are disjoint and past the
slots; the live manifest `m` lies in the slot of its parity and is the one mounting selects;
payload blocks below the head `h` do not read as erased, and from `h` on nothing in either
region has been programmed; every block of a held id lies inside its region.
`Volumes.Sound(img, m, h)` adds that each of those blocks carries its CRC. A build is sound
(`Built.BuiltIsSound`). Wherever an append stops, short of a forged slot, it leaves the volume
usable, with every id it held reading the same bytes in blocks sealed as they were
(`Runs.StopIsUsable`, `Runs.LifeIsSafe`). Whether a commit also leaves it sound has an exact
condition (`Runs.OrphansDecide`), which holds on any sound volume whose head follows its last
committed block (`Runs.LifeStaysSound`).

## Where the code and its promise part

- `Capacity.CheckSuitsIff`: the capacity check counts erased rerank blocks from the end of the
  ids, while the append starts at the next payload block. On fresh builds the check is enough
  exactly when a payload block covers at most eight rerank blocks. A planned append has room
  exactly when its last id fits the rerank region (`Room.RoomIff`). Past that ratio
  (`Overrun.ReserveMisjudged`: codes of 4 bytes, `d = 128`, one vector, a reserve of 32, a batch
  of 128) the call runs over its region's end and fails, whatever the batch
  (`Overrun.MisjudgedCallFails`). The manifest stays. If the first bytes of one block of the batch
  would set a bit of the first record's CRC word, the flash refuses that block and leaves orphans;
  a block of zeros is programmed over the word, and the record is unsealed unless its CRC is zero.
- `Runs.OrphansDecide`: once an append has been committed, the next manifest claims every block
  below its head. A volume is sound after a commit exactly when all of those were sealed, codes
  and records both. `Orphans.ClaimedOrphansDecide` says the same of one append cut short and the
  next one committed. Power loss between a payload block's data and its CRC word
  (`Orphans.TornThenCommitted`), or with all the codes down and a record's CRC word not
  (`Orphans.CodesWithoutRecords`), breaks it unless that word is all ones: those ids read from a
  block that does not verify.
  An append that lost only its install is adopted whole (`Orphans.LostInstallHeals`).
- `Reports.TotalIffNoOrphans`: the drift report's total of appended vectors is called a true total.
  It adds the batch to what was appended before, so ids that a commit claims from an append cut
  short are held and not counted: right exactly when no such blocks lie before the head.
- `Wide.WideReadsBackIff`: a record may span blocks, and the layout gives it blocks of its own. The
  builder starts each one block after the last, so with two or more every record's end is
  overwritten, and the CRC words certify what is left (`Wide.FirstIsTrusted`).
- `Tears.TearForges`: the design promises that a half-written manifest slot fails its digest.
  A tear can stop at any bit, so the slot can hold any pattern between erased and the new
  manifest, and CRC-32 is linear: while the sequence is below 2^24, one such pattern leaves the
  CRC polynomial in the sequence number and mounts as a manifest no append wrote. Mounting
  selects the old manifest or the new exactly when the slot is not forged in this way
  (`Atomicity.AppendIsAtomic`); tears that miss the magic, that differ within 32 consecutive bits,
  or that have everything but the digest are not (`Tears.RefusedTearIsClean`).
- `Scan.ScorersAgreeIffNoStrays`: `adc.rs` says its two scorers return identical values for
  every input. They do exactly when no code reaches past its own row of the table, and the two
  loop shapes of a narrow target under the same condition on whole groups (`Scan.LoopsAgreeIff`).
- `Envelope.KeepsBestIffNoTies`: among rates of equal cost, deduplication keeps the one that
  protects worst. It loses nothing exactly when no two rates of equal cost differ in residual;
  `Envelope.TiesLoseProtection` is a pair that does, and costs round down, so small groups meet it.

## Model

| member | source | states |
|---|---|---|
| GF.BuildTables | crates/sector-codec/src/gf.rs:22-41 | the builder's loop fills both tables with the logarithm and antilogarithm of multiply-by-x, for every byte |
| GF.LogAntilog | crates/sector-codec/src/gf.rs:43-67 | the two tables are mutual inverses: a bijection between exponents below 255 and non-zero bytes |
| GF.PowersAreDistinct | crates/sector-codec/src/gf.rs:19-20 | the generator's first 255 powers are distinct, so it generates every non-zero element |
| GF.MulIsXPow | crates/sector-codec/src/gf.rs:75-80 | table multiplication by `a` is applying multiply-by-x as often as a's logarithm says |
| GF.MulIsProduct | crates/sector-codec/src/gf.rs:75-80 | the table product is the shift-and-add product of two polynomials reduced by x^8 + x^4 + x^3 + x^2 + 1 |
| GF.MulCommutes | crates/sector-codec/src/gf.rs:75-80 | multiplication commutes |
| GF.MulAssociates | crates/sector-codec/src/gf.rs:75-80 | multiplication is associative |
| GF.MulDistributes | crates/sector-codec/src/gf.rs:69-80 | multiplication distributes over addition, for every three bytes |
| GF.MulNonZero | crates/sector-codec/src/gf.rs:75-80 | there are no zero divisors |
| GF.DivUndoesMul | crates/sector-codec/src/gf.rs:84-98 | division undoes multiplication both ways, and refuses exactly a zero divisor |
| GF.PowIsRepeatedMul | crates/sector-codec/src/gf.rs:101-106 | one logarithm multiplication is repeated multiplication |
| Gauss.Invert | crates/sector-codec/src/rs.rs:231-274 | for every k by k matrix: a result is an inverse, a refusal means the matrix is singular |
| Gauss.RightInverse | crates/sector-codec/src/rs.rs:231-274 | the inverse found by row operations works from the right as well |
| Linear.InvertibleIsNotSingular | crates/sector-codec/src/rs.rs:231-274 | no matrix is both inverted and singular, so the two outcomes exclude each other |
| Cauchy.CauchyKernel | crates/sector-codec/src/rs.rs:87-96 | a square Cauchy system over distinct points has only the zero solution |
| Cauchy.GeneratorNotSingular | crates/sector-codec/src/rs.rs:81-128 | any k distinct rows of the generator are linearly independent |
| ReedSolomon.New | crates/sector-codec/src/rs.rs:81-97 | a codec is built exactly for 0 < k <= n <= 16 and k <= 12; coefficient j of parity block i times (i + k) XOR j is one |
| ReedSolomon.Encode | crates/sector-codec/src/rs.rs:135-168 | every parity byte is the XOR of the data bytes, each times the inverse of (i + k) XOR j; each refusal leaves the outputs alone |
| ReedSolomon.Systematic | crates/sector-codec/src/rs.rs:119-128 | the first k blocks of a stripe are the data, unchanged |
| ReedSolomon.Decode | crates/sector-codec/src/rs.rs:174-227 | past the size checks it succeeds exactly when the first k indices are distinct, and whatever was encoded comes back, from any k survivors in any order |
| Crc.BuildTable | crates/sector-codec/src/crc.rs:36-57 | the built table holds, for every byte, eight steps of the reflected register |
| Crc.LookupIsEightBits | crates/sector-codec/src/crc.rs:60-69 | one lookup and shift is eight message bits through the register |
| Crc.TableFormIsBitForm | crates/sector-codec/src/crc.rs:60-72 | the table-driven CRC is the bit-at-a-time CRC, for messages of any length |
| Crc.ComputeCrc32 | crates/sector-codec/src/crc.rs:60-72 | the byte loop over a built table computes that CRC |
| Crc.CheckValue | crates/sector-codec/src/crc.rs:98 | the CRC of the digits one to nine is 0xCBF43926 |
| Crc.BurstDetected | crates/sector-codec/src/crc.rs:60-72 | two different messages of one length whose differences fall within 32 consecutive bits never share a CRC |
| Ranking.TopIsBest | crates/sector-core/src/heap.rs:43-49 | the best r of a list, read off scores and ids: highest score first, lowest id among equals, nothing left out that beats what is kept |
| Ranking.OfferAllIsTop | crates/sector-core/src/heap.rs:151-166 | offering a whole stream to a bounded list keeps the best r of everything seen |
| Ranking.InTopIffFewBetter | crates/sector-core/src/heap.rs:6-14 | an entry of a stream is among the best r exactly when fewer than r beat it |
| Ranking.DepthLaw | crates/sector-core/src/heap.rs:6-14 | an incumbent at rank d of a full heap survives a stream exactly when at most r - d of it are better, in any order |
| BoundedHeap.SiftUpRestores | crates/sector-core/src/heap.rs:168-180 | sifting up restores the heap order and keeps the contents |
| BoundedHeap.SiftDownRestores | crates/sector-core/src/heap.rs:182-201 | sifting down restores the heap order and keeps the contents |
| BoundedHeap.RootIsWorst | crates/sector-core/src/heap.rs:129-135 | the root of a heap is its worst entry |
| BoundedHeap.Heap.Worst | crates/sector-core/src/heap.rs:129-135 | so the root is the last entry of the sorted listing |
| BoundedHeap.PushIsOffer | crates/sector-core/src/heap.rs:151-166 | a push does to the heap what an offer does to the sorted list, and evicts the same candidate |
| BoundedHeap.PopIsDropLast | crates/sector-core/src/heap.rs:204-216 | a pop removes the list's last entry |
| BoundedHeap.Heap.Push | crates/sector-core/src/heap.rs:151-166 | the array method refines both: new heap and new sorted listing, eviction, and the unused tail untouched |
| BoundedHeap.Heap.PopWorst | crates/sector-core/src/heap.rs:204-216 | the array method returns and removes the worst entry |
| BoundedHeap.Heap.DrainSorted | crates/sector-core/src/heap.rs:221-239 | draining writes the best entries in order and empties the heap |
| Scan.ScorersAgreeIffNoStrays | crates/sector-quant/src/adc.rs:139-240 | the row-splitting and the indexed scorer agree on every table of a size exactly when no code strays past its row |
| Scan.ScoreIsSum | crates/sector-quant/src/adc.rs:139-240 | without strays either scorer is the 32-bit signed word congruent to the sum of the table entries the codes name |
| Scan.StrayCodesDisagree | crates/sector-quant/src/adc.rs:214 | one code past its row on which the two scorers differ |
| Scan.ScanB8 | crates/sector-core/src/scan.rs:111-139 | one record at a time, the heap arrays and the counters are those of offering the whole stream in order; a trailing partial record is ignored |
| Scan.ScanB8x4 | crates/sector-core/src/scan.rs:197-247 | four at a time, the heap arrays and the counters are those of offering index-scored candidates for every whole group and the target's own scores for the tail, strays or not |
| Scan.ScanB8Auto | crates/sector-core/src/scan.rs:65-82 | the loop shape a target selects, with exactly that shape's stream |
| Scan.LoopsAgreeIff | crates/sector-core/src/scan.rs:197-247 | on a narrow target the four-wide loop offers what the scalar one does, for every table of a size, exactly when no record of a whole group has a stray code |
| Scan.BlockByBlock | crates/sector-core/src/scan.rs:111-139 | cutting a run at any record boundary and offsetting the ids changes neither the heap arrays nor the summed counters |
| Scan.ConsumeCounts | crates/sector-core/src/scan.rs:30-47 | scanned counts the stream, and offered less evicted is what the heap gained |
| Scan.OfferedAreEntrants | crates/sector-core/src/scan.rs:30-47 | offered is the number of candidates that had, when they came, fewer than `capacity` before them ranking no worse |
| Scan.ScanHoldsTop | crates/sector-core/src/heap.rs:141-239 | scanning into an empty heap of capacity r leaves min(r, n) of the candidates, and none left out has a higher score, or the same score and a lower id |
| Rerank.ExactScoreIsInnerProduct | crates/sector-core/src/rerank.rs:152-167 | the exact score is the 32-bit signed word congruent to the inner product with the record's bytes as signed ones |
| Rerank.VerifyBlocks | crates/sector-core/src/rerank.rs:103-150 | verification passes exactly when every containing block is whole and matches its CRC |
| Rerank.CheckedIs | crates/sector-core/src/rerank.rs:120-141 | blocks verified counts those that match up to and including the first that does not, none past a short buffer |
| Rerank.RescoredIffIntact | crates/sector-core/src/rerank.rs:103-150 | a candidate is rescored exactly when its record is there and the blocks handed over, cut one by one, have the CRCs handed over |
| Rerank.MismatchDrops | crates/sector-core/src/rerank.rs:130-141 | one guarding block whose CRC is not the stored word drops every candidate of the id |
| Rerank.SurvivorsExactly | crates/sector-core/src/rerank.rs:103-150 | the survivors are exactly the candidates whose record is present under matching CRCs, with exact scores |
| Rerank.RerankAll | crates/sector-core/src/rerank.rs:103-150 | the pass writes the survivors in order, counts as dropped exactly the candidates not intact, backfills none, and stops at the first read error |
| Rerank.SortDesc | crates/sector-core/src/rerank.rs:169-182 | the in-place sort puts the highest score first and the lowest id first among equals, keeps the entries, and touches nothing past its prefix |
| Query.HeapListsTop | crates/sector-core/src/query.rs:123-145 | after the scan phase the heap lists the first `depth` of all stage-one candidates, best by score then id |
| Query.Finish | crates/sector-core/src/query.rs:127-186 | the output is the k survivors of highest exact score, lowest id on a tie; dropped and rescored add up to the candidates |
| Query.RunQuery | crates/sector-core/src/query.rs:71-186 | one query end to end, on any codes and either target: its output by scores and ids, its counters, and every refusal |
| Query.TargetsAgree | crates/sector-core/src/scan.rs:65-82 | at eight bits a code, with a table of whole rows, wide and narrow targets offer the same candidates |
| Flash.WritableVolume.Program | crates/sector-os/src/ingest.rs:515-539 | a program succeeds exactly when it is in bounds and only clears bits, and otherwise writes nothing |
| Flash.WritableVolume.Erase | crates/sector-os/src/ingest.rs:541-560 | only the two manifest slots can be erased |
| Flash.ProgramsOfErasedAreLegal | crates/sector-hal/src/lib.rs:26-64 | programs of separate erased ranges are all legal where they happen |
| Flash.CrashElsewhere | crates/sector-hal/src/lib.rs:41-43 | a crash after or inside any operation leaves every byte the operations keep clear of as it was |
| Codec.LeRoundTrip | crates/sector-format/src/manifest.rs:329-338 | little-endian fields read back what was written |
| Codec.LittleEndian | crates/sector-format/src/manifest.rs:329-338 | the first byte stored is the lowest |
| Codec.WordIsLittleEndian | crates/sector-core/src/append.rs:103-133 | a CRC word is stored lowest byte first |
| Region.DescRoundTrip | crates/sector-format/src/region.rs:179-222 | a descriptor whose fields fit decodes to itself |
| Region.StoredDesc | crates/sector-format/src/region.rs:179-202 | the stored bytes: kind 1 to 6, protection, two zeros, base, block size, block count |
| Region.DescDecodes | crates/sector-format/src/region.rs:204-222 | a stored descriptor decodes exactly when its kind is 1 to 6 and its protection 0 to 2, and then to its fields |
| Region.ValidIff | crates/sector-format/src/region.rs:147-170 | a descriptor is valid exactly on whole sectors, in blocks that divide one, ending below 2^32 |
| Region.OverlapIsShared | crates/sector-format/src/region.rs:239-254 | regions that hold bytes overlap exactly when they share one |
| Region.ValidTableIffDisjoint | crates/sector-format/src/region.rs:239-254 | a table validates exactly when every region does and no two share bytes |
| Region.RefusalIsNamed | crates/sector-format/src/region.rs:239-254 | a refused table names the first faulty region's fault, or two regions that overlap, in order |
| Region.TableRoundTrip | crates/sector-format/src/region.rs:262-296 | a table decodes to itself, whatever bytes follow it |
| Region.ReadTable | crates/sector-format/src/region.rs:276-296 | the decoding loop stops at the first bad descriptor and otherwise returns them all in order |
| Region.WriteTable | crates/sector-format/src/region.rs:262-273 | the encoding loop writes the table at its place and nothing else, or refuses a short buffer |
| Manifests.Encode | crates/sector-format/src/manifest.rs:143-176 | the cursor writes the header, the table and the digest over an erased slot, byte for byte the stored form |
| Manifests.StoredHeader | crates/sector-format/src/manifest.rs:143-176 | the stored slot: magic, version, each field at its offset, the table, the digest of all before it, erased bytes |
| Manifests.ManifestRoundTrip | crates/sector-format/src/manifest.rs:143-245 | a well-formed manifest whose fields fit decodes to itself |
| Manifests.DecodedIsWellFormed | crates/sector-format/src/manifest.rs:181-245 | whatever decodes has the magic, version two, a matching digest, a valid table and an ordered id range |
| Manifests.ErasedDoesNotDecode | crates/sector-format/src/manifest.rs:181-188 | an erased slot is not a manifest |
| Manifests.StoredCountsHeld | crates/sector-format/src/manifest.rs:250-269 | `stored` is the number of held ids, and the gap is exactly the ids below n that are not held |
| Manifests.InstallSparesLive | crates/sector-format/src/manifest.rs:309-316 | the next install never targets the live slot, and lands where its own sequence lives |
| Layouts.NeverStraddles | crates/sector-format/src/payload_blk.rs:77-92 | a code's bytes lie inside the one block that `block_of` names |
| Layouts.IdsInBlockInvertsBlockOf | crates/sector-format/src/payload_blk.rs:77-108 | `ids_in_block` is exactly the preimage of `block_of` |
| Layouts.VectorsApart | crates/sector-format/src/payload_blk.rs:85-92 | distinct codes never share a byte and lie in id order |
| Layouts.BlocksOfCoverRecord | crates/sector-format/src/rerank_blk.rs:86-94 | the blocks a rescore verifies are exactly those the record touches, whether it fits a block or spans several |
| Layouts.RecordsApart | crates/sector-format/src/rerank_blk.rs:70-80 | distinct records never share a byte |
| Layouts.UnitIsLeastCommonMultiple | crates/sector-os/src/ingest.rs:162-173 | the append unit is the least common multiple of the two per-block counts |
| Layouts.AppendUnit | crates/sector-build/src/emit.rs:112-133 | Euclid's loop computes that unit, with zero counts clamped to one |
| Volumes.AreasApart | crates/sector-format/src/region.rs:239-254 | in a valid table past the slots, both data areas, both CRC arrays and both slots never share a byte |
| Volumes.WrittenHoldsAnId | crates/sector-os/src/verify.rs:211-225 | a block is written exactly when it contains a held id |
| BlockAppend.HeadIsLeastErased | crates/sector-core/src/append.rs:72-97 | the head found is the least erased block |
| BlockAppend.FindHead | crates/sector-core/src/append.rs:72-97 | the probing loop finds it, or reports the first failed read or a short probe |
| BlockAppend.AppendBlock | crates/sector-core/src/append.rs:103-133 | data first, then its CRC word, stopping at the first refusal |
| BlockAppend.BlockOpsResult | crates/sector-core/src/append.rs:103-133 | after a run of blocks every one holds its chunk and its CRC certifies it |
| BlockAppend.CrashSplitsArea | crates/sector-core/src/append.rs:99-133 | wherever a run is cut, the area is blocks that do not read as erased, then untouched ones |
| Append.CountErasedSlots | crates/sector-os/src/ingest.rs:202-227 | the capacity loop counts whole erased blocks past the addressable extent |
| Append.Append | crates/sector-os/src/ingest.rs:234-422 | refused as planned with nothing written, or its operations in order up to the first the flash refuses, with the report |
| Crash.AppendIsLegal | crates/sector-os/src/ingest.rs:343-411 | every operation of a ready append is one the flash accepts: programs only clear bits, and only the spare slot is erased |
| Atomicity.AppendIsAtomic | crates/sector-os/src/ingest.rs:343-411 | stopped after any operation or inside one, mounting selects exactly the old manifest or exactly the new if and only if the spare slot is not forged, which only a torn install can do; the new one only with all data down; every block of a held id and its CRC word are unchanged |
| Atomicity.HeldIdsReadTheSame | crates/sector-os/src/ingest.rs:343-411 | so every held id reads the same code and record, in blocks that are sealed exactly if they were |
| Tears.RefusedTearIsClean | crates/sector-format/src/manifest.rs:274-285 | a tear of the manifest write is not forged if the magic is incomplete, or the digest's whole scope is down, or the digest is down and the missing bits fall within 32 consecutive ones |
| Tears.CleanTearHappens | crates/sector-format/src/manifest.rs:274-285 | every ready append has a strict tear of its manifest write that is not forged |
| Tears.SameCrc | crates/sector-codec/src/crc.rs:60-72 | two messages that differ by the CRC polynomial alone, a burst of 33 bits, share their CRC |
| Tears.TearForges | crates/sector-format/src/manifest.rs:274-285 | below 2^24 installs, some tear of the manifest write mounts as neither the old manifest nor the new |
| Lifecycle.NewIdReadsBack | crates/sector-os/src/ingest.rs:302-371 | once the data is down, wherever the install stops, vector i of the batch has its code and its record at the same id, in sealed blocks |
| Lifecycle.StopHasHead | crates/sector-os/src/ingest.rs:343-371 | wherever an append stops the volume has an append head again, past every block it may have touched |
| Runs.CommitIsUsable | crates/sector-os/src/ingest.rs:297-411 | whenever the new manifest mounts the volume is usable under it, its head past the new blocks and no orphans before it |
| Runs.CompletedCommits | crates/sector-os/src/ingest.rs:343-411 | an append that runs to its end mounts as the new manifest |
| Runs.StopIsUsable | crates/sector-os/src/ingest.rs:343-411 | an append cut short anywhere, short of a forged slot, leaves a usable volume: under the old manifest with the head moved on, or under the new one |
| Runs.StopIsStep | crates/sector-os/src/ingest.rs:343-422 | every stop that forges nothing is a step of a life: what the next mount finds has a head |
| Runs.OrphansDecide | crates/sector-os/src/ingest.rs:379-396 | after a commit the volume is sound exactly when every block the manifest names below the head was sealed before, in the payload region and in the rerank region |
| Runs.CommitKeepsSound | crates/sector-os/src/ingest.rs:343-411 | with no orphans before the head a commit leaves a sound volume exactly when it was sound before |
| Runs.LifeIsSafe | crates/sector-os/src/ingest.rs:234-422 | over any run of appends, each completed or cut short anywhere with any tear that forges nothing, the volume stays usable and whatever was ever held stays held with the same bytes, sealed exactly as it was |
| Runs.LifeStaysSound | crates/sector-os/src/ingest.rs:234-422 | a life that starts sound and commits only over no orphans is sound throughout; stops may leave orphans |
| Runs.RunGrows | crates/sector-os/src/ingest.rs:297-411 | over committed appends the sequence counts them, the gap is fixed by the first, each later one starts where the last ended, and the id range stays ordered |
| Orphans.ClaimedOrphansDecide | crates/sector-os/src/ingest.rs:379-396 | on a committed volume without orphans, stop one append anywhere, commit the next: sound exactly when it was before and every orphan is sealed in both regions |
| Orphans.TornThenCommitted | crates/sector-os/src/ingest.rs:390-394 | a tear between the first block's data and its CRC word leaves a volume on which the next append is ready, and whose commit claims a block that fails its CRC |
| Orphans.CodesWithoutRecords | crates/sector-os/src/ingest.rs:379-396 | with all codes sealed and the first rerank block's CRC word not written, the next commit is unsound by a record alone |
| Orphans.LostInstallHeals | crates/sector-os/src/ingest.rs:398-411 | an append that lost only its install is adopted by the next commit: sound exactly when the volume was sound before |
| Orphans.HeadAfterPayloadOps | crates/sector-core/src/append.rs:72-97 | a stop inside the payload run moves the head by one block for every block begun |
| Room.PlannedAtHead | crates/sector-os/src/ingest.rs:262-337 | on a sound volume a plan that succeeds starts at the head and has its payload blocks |
| Room.PlanSucceeds | crates/sector-os/src/ingest.rs:262-337 | and the plan succeeds whenever those checks do |
| Room.RefusalsAre | crates/sector-os/src/ingest.rs:244-337 | on a usable volume a batch is refused as misaligned, or as too large with the payload slots past the head and the rerank slots found, and never otherwise |
| Room.RoomIff | crates/sector-os/src/ingest.rs:262-371 | a planned append stays inside its regions exactly when its last id fits the rerank region |
| Room.CapacityIsEnough | crates/sector-os/src/ingest.rs:262-268 | up to eight rerank blocks to a payload block, and with the head at the end of the ids, the capacity check implies room |
| Overrun.CapacityMisjudges | crates/sector-os/src/ingest.rs:202-227 | past that ratio it does not: 128 vectors pass the check and the operations run past the rerank region |
| Overrun.ReserveMisjudged | crates/sector-build/src/emit.rs:141-169 | a build with `--reserve 32` is such a volume: the plan succeeds, and the operations include a data block at the rerank CRC words |
| Overrun.MisjudgedCallFails | crates/sector-os/src/ingest.rs:343-411 | for every batch that call fails on the flash, the manifest stays, and the first record stays sealed exactly if the flash refuses the block over its CRC word or that block happens to hold it; a block of zeros is not refused |
| Capacity.CheckSuitsIff | crates/sector-os/src/ingest.rs:202-268 | for widths that fill blocks, the check gives every planned append on every fresh build its room exactly when a payload block covers at most eight rerank blocks |
| Capacity.ReserveIsUsable | crates/sector-build/src/emit.rs:154-167 | on a fresh build every batch of whole units up to the reserve asked for is planned at the block after the last vector and has room |
| Room.AppendSucceeds | crates/sector-os/src/ingest.rs:234-422 | on a sound volume with room the call reports success and leaves exactly the completed image |
| Reports.ReportIsTrue | crates/sector-os/src/ingest.rs:384-422 | the report is true of the volume after: every id from its first on is held and reads vector i's code and record in sealed blocks, the gap is what is not held below the end, the block counts are the data programs made |
| Reports.TotalIffNoOrphans | crates/sector-os/src/ingest.rs:374-383 | its total of appended vectors is the number of appended ids then held exactly when no orphans lay before the head |
| Reports.OrphansUncounted | crates/sector-os/src/ingest.rs:374-396 | after a stopped append on a committed volume the total is short by the ids of every block left before the head |
| Room.BuildBeginsALife | crates/sector-build/src/emit.rs:141-302 | a build is a life's first volume: sound, no orphans, its head at the block after the last vector |
| Emit.EmitImage | crates/sector-build/src/emit.rs:141-302 | for any widths, the builder lays out codebook, payload, rerank and manifest in that order, or refuses an invalid table |
| Emit.TableIsValid | crates/sector-build/src/emit.rs:180-220 | under 4 GiB the regions are sector-aligned, disjoint, past the slots and inside the image; the codebook's are replicated, the others CRC-detected |
| Emit.FilledBlocks | crates/sector-build/src/emit.rs:324-353 | every block written starts with its records and its CRC word certifies it |
| Wide.WideReadsBackIff | crates/sector-build/src/emit.rs:324-353 | records wider than a block read back at the layout's offsets, whatever they contain, exactly when there is at most one |
| Wide.FirstIsTrusted | crates/sector-format/src/rerank_blk.rs:70-94 | with two or more the blocks of the first one's place still carry their CRCs, so the reader serves its overwritten bytes as trusted |
| Built.StoredFields | crates/sector-build/src/emit.rs:262-297 | the manifest of a build: sequence one, its geometry and default depth, no gap and nothing appended |
| Built.BuiltIsInstalled | crates/sector-build/src/emit.rs:268-297 | mounting the image selects the manifest written: slot A decodes to it, slot B is erased |
| Built.BuiltIsSound | crates/sector-build/src/emit.rs:141-302 | every block of an id is sealed, every reserved block and its CRC word are erased, every CRC word lies inside its region |
| Built.VectorReadsBack | crates/sector-build/src/emit.rs:324-353 | every vector's code and record read back from the finished image |
| Built.PlacedByLayout | crates/sector-format/src/rerank_blk.rs:70-80 | at exactly the layouts' own offsets |
| Built.CodebookReadsBack | crates/sector-build/src/emit.rs:224-230 | the codebook and every replica of it read back |
| Source.WalkServesHeld | crates/sector-os/src/source.rs:117-180 | a walk serves exactly the held ids, once each, in ascending order, and none of the gap |
| Source.PayloadReader.NextRun | crates/sector-os/src/source.rs:117-180 | each run is the next block with a held id, cut at the gap and at the end, with the bytes flash holds, whatever the buffer holds |
| Source.Walk | crates/sector-os/src/source.rs:117-190 | a whole walk yields every held id with the bytes flash holds for it, for any chunk size |
| Source.SoundShape | crates/sector-os/src/source.rs:78-107 | on a sound volume the walk's held ids are the manifest's |
| Source.RerankReader.Record | crates/sector-os/src/source.rs:239-271 | a fetch returns the whole blocks the record touches and their CRC words, nothing past the end, or the read that failed |
| Source.HeldRecordIsServed | crates/sector-os/src/source.rs:239-271 | on a sound volume every held id's record is served and verifies |
| Source.SoundVolumeDropsNothing | crates/sector-core/src/rerank.rs:103-150 | on a sound volume no candidate of a held id is dropped: each is rescored against its own bytes |
| Source.RescoredIffSealed | crates/sector-core/src/rerank.rs:103-150 | over a volume a candidate is rescored exactly when its rerank block is sealed |
| Source.BurstIsDropped | crates/sector-core/src/rerank.rs:103-150 | damage within 32 consecutive bits of a sealed rerank block drops every candidate with a record in it |
| Search.QueryVolume | crates/sector-core/src/query.rs:71-186 | with eight-bit codes, a query over the reader's runs on a sound volume: the k highest exact scores, lowest id on a tie, of the `depth` held ids of highest stage-one score; nothing dropped |
| Verify.RunsAreWritten | crates/sector-os/src/verify.rs:211-225 | `written_runs` is exactly the blocks that contain a held id |
| Verify.SweepRegion | crates/sector-os/src/verify.rs:262-283 | the sweep collects the mismatching blocks of the runs in order, or the first read that fails |
| Verify.BadRunsAre | crates/sector-os/src/verify.rs:262-283 | what it collects is exactly the written blocks whose CRC word does not match |
| Verify.SoundIsClean | crates/sector-os/src/verify.rs:228-283 | a sound volume is reported clean in both regions, before and after any append |
| Envelope.DistinctKeepsWorst | crates/sector-build/src/allocate.rs:98-101 | sort and dedup leave one rate of each cost, rising, and of equal costs the one that protects worst |
| Envelope.KeepsBestIffNoTies | crates/sector-build/src/allocate.rs:100-101 | the dedup loses no protection exactly when no two rates of equal cost differ in residual |
| Envelope.TiesLoseProtection | crates/sector-build/src/allocate.rs:100-101 | two rates rounding to one cost of which the envelope keeps only the worse |
| Envelope.ComputeEnvelope | crates/sector-build/src/allocate.rs:98-135 | the scan with its pop loop computes the hull |
| Envelope.HullIsConvex | crates/sector-build/src/allocate.rs:98-135 | the envelope is made of given rates, strictly rising in cost, strictly falling in residual and in slope |
| Envelope.HullIsOptimal | crates/sector-build/src/allocate.rs:98-135 | without ties it holds a minimiser of residual plus price times cost over all rates, at every non-negative price |
| Allocate.Fill | crates/sector-build/src/allocate.rs:143-205 | the loop ends, at the greedy state, and tracks exactly what it has spent |
| Allocate.GreedyWithinBudget | crates/sector-build/src/allocate.rs:152-205 | it ends within budget exactly when the cheapest assignment is |
| Allocate.BestIsBest | crates/sector-build/src/allocate.rs:163-189 | no eligible group has a better ratio than the one picked, nor the same and a larger gain, nor both and an earlier place; none is picked only if none is eligible |
| Allocate.RatioFalls | crates/sector-build/src/allocate.rs:180-181 | floored ratios never increase along an envelope |
| Allocate.WaterFillingIsNearlyOptimal | crates/sector-build/src/allocate.rs:161-205 | while no step has been skipped for budget, the objective exceeds that of any envelope assignment costing no more by at most one unit per byte spent above the cheapest |
| Exhaustive.EveryChoiceIsEnumerated | crates/sector-build/src/allocate.rs:273-283 | the mixed-radix enumeration misses no assignment |
| Exhaustive.SearchAll | crates/sector-build/src/allocate.rs:263-318 | the best-so-far loop returns the first best of all combinations: every group in order at one of the given rates and that rate's cost, totals summed over the rates assigned, within budget |
| Exhaustive.ExhaustiveIsOptimal | crates/sector-build/src/allocate.rs:263-318 | nothing is returned exactly when no assignment fits; otherwise one that fits and that none that fits beats |
| Exhaustive.BestIsFirst | crates/sector-build/src/allocate.rs:300-317 | of the best combinations the one enumerated first is returned |
| Exhaustive.SpentAddsUp | crates/sector-build/src/allocate.rs:207-232 | `allocate` reports as spent the sum of its assignments' costs |
| Exhaustive.AllocateBudget | crates/sector-build/src/allocate.rs:143-233 | the allocation at the greedy state: every group in order at one of the given rates and that rate's cost, spending and objective summed over the rates assigned; empty rates without any |
| Exhaustive.AllocateNeverBeatsExhaustive | crates/sector-build/src/allocate.rs:143-318 | within budget, the derived allocation never beats the search it is checked against |
| Exhaustive.AllocateIsNearlyOptimal | crates/sector-build/src/allocate.rs:143-233 | run to its end without a skip, what it returns is within the near-optimality bound |
| Labels.GrayPermutes | crates/sector-build/src/label_opt.rs:144-148 | `rank ^ (rank >> 1)` permutes the ranks below a power of two |
| Labels.GrayNeighbours | crates/sector-build/src/label_opt.rs:143-148 | adjacent ranks get labels one bit apart |
| Labels.WidestAxis | crates/sector-build/src/label_opt.rs:193-215 | the first coordinate of greatest spread |
| Labels.WidthIsRange | crates/sector-build/src/label_opt.rs:193-215 | spread is the largest difference between two centroids on the axis |
| Labels.SortByPermutes | crates/sector-build/src/label_opt.rs:136-141 | the sorted order holds every centroid once |
| Labels.SortBySorts | crates/sector-build/src/label_opt.rs:136-141 | along the axis coordinates rise, and the lower index comes first among equals |
| Labels.SpreadIsMean | crates/sector-build/src/label_opt.rs:52-80 | the displacement is the mean of the squared distances over all pairs of labels one bit apart, zero without any |
| Labels.MeanHammingDisplacement | crates/sector-build/src/label_opt.rs:52-80 | the mean squared distance over one-bit neighbours |
| Labels.DisplacementOf | crates/sector-build/src/label_opt.rs:85-121 | the same of the centroids in label order, without moving them |
| Labels.Pass | crates/sector-build/src/label_opt.rs:157-171 | a pass lowers the displacement, or changes nothing and no transposition lowers it |
| Labels.Optimise | crates/sector-build/src/label_opt.rs:129-190 | the search starts from the widest axis, sorted and Gray-coded, and never ends above it; the result is a bijection, `after` is the relabelled codebook's displacement, and a settled search is a local optimum |
| Labels.InverseIsPerm | crates/sector-build/src/label_opt.rs:177-183 | inverting a labelling gives one, on both sides |
| Labels.PermuteCentroids | crates/sector-build/src/label_opt.rs:218-234 | the copy loop puts every centroid under its label, for any map: the last to claim a label keeps it, an unclaimed label holds zeros |
| Labels.LabelHolds | crates/sector-build/src/label_opt.rs:218-234 | a label holds the last centroid the map gives it, one past the map's end counting as label zero, and zeros if none |
| Labels.PermuteCodes | crates/sector-build/src/label_opt.rs:237-245 | the stride rewrites exactly one subspace's codes in place |
| Labels.RelabellingIsLossless | crates/sector-build/src/label_opt.rs:217-245 | relabelling codebook and codes together preserves every reconstruction |

## Left out

- Runs.LifeIsSafe: a life has no forged slot. The hypothesis is exact at each stop (`Atomicity.AppendIsAtomic`) and cannot be dropped (`Tears.TearForges`).
- Append.Append: for a mounted volume of byte-wide codes whose record sizes divide the block, the code no wider than the record; wider or uneven records and the four-bit path are not modelled here. Dimension and finiteness checks, the file lock and `encode_one` are not modelled; the codes and records of the batch are given, and the report leaves out `remaining` and the error figures of the drift.
- Built.BuiltIsSound: assumes byte-wide codes, record sizes that divide the block with the code no wider than the record, an image under 4 GiB, and no block of codes that is all 0xFF, because the head is recognised by content alone.
- Built.BuiltIsInstalled: the same widths and size, since what mounts is stated for the volumes an append takes.
- Built.VectorReadsBack: the same widths and size; wider records do not read back (`Wide.WideReadsBackIff`).
- Built.PlacedByLayout: the same widths and size.
- Built.CodebookReadsBack: the same widths and size.
- Allocate.WaterFillingIsNearlyOptimal: 64-bit overflow in the products of `envelope` and `allocate` is not modelled.
- Labels.Optimise: centroids are real vectors, one per entry; floating-point rounding, NaN and the flattened storage are not modelled. The number of centroids is a power of two up to 256.
- Source.PayloadReader.NextRun: the region is on the flash, so a read does not fail; the test for an empty run is never met (`Shape.Take`) and is left out.
- Query.RunQuery: the ADC table is given; its build, the rotation, the instrument and the clock are not modelled.
- Verify.SoundIsClean: the codebook comparison of `verify` and the vector counts derived from the report are not modelled.
- The four-bit path: `scan_b4`, `code_b4` and `set_code_b4`.
- `repair`, the scrub cursor, the profiles, the metrics and the group weights.
- k-means training, quantisation and criticality measurement: floating point without an exact claim.
- Files, locks, mapping, the HTTP daemon, the command line, JSON and timing: input and output.
