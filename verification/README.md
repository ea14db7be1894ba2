# Verified model of the engine's stores, radios, screens and logs

This project states in Dafny what some parts of the WANTED engine promise, and proves it of a model of their code. The
model keeps the code's own form: a class where the code keeps a table or a device in memory, a method with a loop
where the code loops, a function where it computes. Beside each stands a plain definition of what it is for, and the
proofs connect the two.

The parts, and what is proved of each:

- **The page store** (`PageStore`, `PageRun`, with `FlashLayout`, `StageLayout`, `UnitScan`, `PageRules`,
  `BlobRecord`). Blobs on raw flash in allocation units, with a count for each unit. For every run, and a reset after
  or inside any erase, write or record change, a blob is there whole or not at all; no erase or write touches a unit a
  record names; the counts are exactly the owners of each unit; and starting again in any directory order gives the
  blobs back. The counts stop at 255, so the exact conditions for that are proved too. A step is refused only if a
  call to the flash or the files failed in it or it cannot be done. `Capacity` proves what the capacity report means
  for a stage. `MemStore` is the in-memory store, and `StoreAgreement` runs the two side by side against a plain
  table.
- **The registry** (`Registry`, with `RegistryRules` and `RegistryKeys`). Over every run of writes, links, commits,
  removals, loads, unloads, signings, listings, stops and resets: no blob that a readable record lists, a waiting
  layer names or a mapping uses is dropped; nothing comes to dangle while the resident images stay; each digest has
  one mapping, with as many users as layers handed out; and every blob is stored under the hash of its bytes. When no
  store call fails in a step and the listings it makes are whole, how it ends is exact, by what was held before. While
  no store call fails and the records, their digests and each store's blobs fit a listing, no blob leaks, the cached
  blob listing is what reading it again would give, and a bare name finds the installed version of it that was
  committed last, unless the 32-bit sequence could have wrapped. `RecordCodec` proves the entry record, old and new,
  and hex digest formats.
- **The LoRa driver** (`DutyCycle`, `LoraRadio`, `LoraQueue`). In every band the air time that ends in any hour is
  within the budget, over every run across owners and channels, where air time is what the chip put on air; the wait
  reported is the least one; received frames are delivered in order and every one lost is counted once.
- **The framebuffer** (`FrameLayout`, `FrameBuffer`). An observer that re-reads the rectangles it is given agrees with
  the flushed screen everywhere else, through overflow, alignment and widening, as observers come and go.
- **The log store** (`LogText`, `LogStore`, with `Ring`). Every run of output, reads and resets is a run of a log of
  plain values: each ring reads as the end of its stamped stream, wherever calls split it, and the engine's log of the
  last boot is readable after a reset.
- **The hash and the calendar** (`Sha256`, `Sha256Vector`, `RtcTime`). Streaming gives the one-shot hash of FIPS
  180-4, whose functions are pinned bit by bit, its constants by their roots, and the whole by a published digest; the
  two calendar conversions undo each other and agree with a day-by-day Gregorian count.

## What is assumed

- Each section the code runs under a lock is one step. One transmission at a time uses a radio: the check and the
  charge are two locked sections (`src/vfs/vfs-lora.c:683` and `src/vfs/vfs-lora.c:711`), and `DutyCycle.RaceOverruns`
  shows two frames between them overrun an hour. Clocks do not go back.
- Putting or renaming a record file happens whole or not at all, and a read that reports no such record means there is
  none. While the page store starts, listing its directory, reading a record and deleting one succeed; a record that
  could not be read there would be deleted. Any other flash or store call may fail, a flash call leaving anything in
  the bytes it was to change. What a store, the flash, the files, the memory, the chip and the clock of the log answer
  is fixed for each object as a sequence of answers, one for each call, and nothing is assumed of it.
- The user of a page store stage aborts it after a failed write. `src/registry.c:565-601` does, and the registry model
  proves that it never ends such a stage.
- A partition is under 4 GiB. A backing that widens a flush gives whole bytes of columns, where what it gives is
  taken.
- An observer re-reads a rectangle a row at a time, each row under its own lock.
- A frame reaches the receive queue only while the radio receives; the queue's flag is not tied to the radio's state.
- Different digests are mapped at different addresses. The firmware registers the same resident images again after a
  reset. Refs arrive split into name and version.
- A record put is read back as the same record, which `RecordCodec.RecordRoundTrip` proves for the layers a build
  holds.

## Where the code differs from what is said of it

- The comment on the capacity report calls it the most a stage can take (`platform/registry/registry-page.c:172-174`).
  On a scattered store it can be more, since a stage takes free runs in address order: `Capacity.ScatteredReport`
  gives the exact condition and `Capacity.Overstated` an instance.
- The unit counts are exact only up to 255 owners: `PageRules.AdoptExact`, `PageRules.AgreeIffCountable` and
  `PageStore.PageStore.Init` give the exact conditions and `PageRules.CrowdHasNoMap` an instance.
- An installed entry is said to win over a resident image. For a bare name one does exactly when some installed entry
  of the name has a sequence or sorts before every resident one, and a record of the older format has no sequence:
  `RegistryRules.InstalledBeatsResident` and `RegistryRules.OlderRecordLoses`.
- The cached blob listing is kept over staging. A blob that an entry names and nothing held makes it stale:
  `RegistryRules.KeptShows` gives the exact condition and `Registry.StaleListing` a run that ends so. A listing that
  could not be read is cached as empty: `Registry.Registry.Refresh`.
- Air time is computed in 32-bit microseconds: `LoraRadio.ChargeCovers` says exactly when the charge covers the frame,
  and `LoraRadio.ChargeFallsShort` gives a channel where it does not.
- A flush of columns that are not whole bytes would show more or less than its rectangle: `FrameBuffer.FlushExactIff`.
- A log name longer than 14 characters is stored cut. `LogStore.Store.Append` says that after output a name is found
  exactly when it is no longer than that; `LogStore.CutNameAliases` that its first 14 characters find its output
  instead; and `LogStore.LongNameLost` is an instance.

## Model

| member | source | states |
|---|---|---|
| `BlobRecord.BlobRoundTrip` | platform/registry/registry-page.c:64-102 | every blob record of 1 to 32 extents reads back as itself |
| `BlobRecord.BlobLayout` | platform/registry/registry-page.c:64-81 | where each field of a stored record is, down to the magic and every extent |
| `BlobRecord.EncodeBlob` | platform/registry/registry-page.c:66-81 | the buffer holds exactly the stored form of the record, and the count says how much of it |
| `BlobRecord.DecodeBlob` | platform/registry/registry-page.c:83-102 | bytes are read as the record they stand for, and refused exactly when short, of another magic, or of no or too many extents |
| `Bytes.Get32OfPut32` | src/registry-record.c:9-19 | a 32-bit number stored low byte first reads back as itself |
| `Bytes.LowByteFirst` | src/registry-record.c:9-14 | the four bytes of a number, each times its place, lowest first, add up to it |
| `Bytes.LowHalfFirst` | src/registry-record.c:21-28 | a signed time is stored as the low and then the high half of its two's complement |
| `Bytes.Get64OfPut64` | src/registry-record.c:21-28 | a signed 64-bit time, negative ones included, reads back as itself |
| `FlashLayout.Geometry.ContentsFrame` | platform/registry/registry-page.c:215-294 | changing a unit that no record names changes no blob |
| `FlashLayout.RecordsAfterPut` | platform/registry/registry-page.c:316-350 | a record file put under a digest is read back as that record and disturbs no other |
| `UnitScan.CountFree` | platform/registry/registry-page.c:141-149 | the number of units of count zero |
| `UnitScan.FirstFree` | platform/registry/registry-page.c:203-211 | the lowest free unit, or none when every unit is taken |
| `UnitScan.LargestRun` | platform/registry/registry-page.c:152-170 | a free run as long as any, the first of that length, and its start |
| `PageStore.PageStore.FlashErase` | platform/registry/registry-page.c:257-294 | may be asked only for a unit no record names; answers exactly as the flash does; a torn erase spoils that unit alone, and every medium a cut can leave holds the same blobs |
| `PageStore.PageStore.FlashWrite` | platform/registry/registry-page.c:257-294 | may be asked only for bytes erased and unwritten since, in a unit no record names; answers exactly as the flash does; a torn write spoils nothing else |
| `PageStore.PageStore.SetUnit` | platform/registry/registry-page.c:104-111 | counts up to 255 and stays there, counts down to 0 and stays there |
| `PageStore.PageStore.MarkRange` | platform/registry/registry-page.c:119-131 | every unit the extent touches is counted once, and an adopted mark lives exactly as long as the count |
| `PageStore.PageStore.FreeStageUnits` | platform/registry/registry-page.c:133-139 | gives back exactly the units the stage took |
| `PageStore.PageStore.TakeUnit` | platform/registry/registry-page.c:215-244 | takes the unit after the last run, else the first free one within the run limit, and refuses exactly when neither exists |
| `PageRules.TakeKeeps` | platform/registry/registry-page.c:215-244 | a unit taken was named by no record, and the map still counts owners exactly |
| `PageStore.PageStore.StageBegin` | platform/registry/registry-page.c:246-255 | opens an empty stage exactly when none is open |
| `PageStore.PageStore.PrepareUnit` | platform/registry/registry-page.c:257-294 | takes and erases the next unit, and fails only if none can be taken or the erase fails; stored blobs are untouched whatever fails |
| `PageStore.PageStore.StageWrite` | platform/registry/registry-page.c:257-294 | the stage reads back as all bytes given so far, which it does unless a flash call fails or no unit can be taken; else it is fit only to abort; stored blobs are untouched in every medium a cut can leave |
| `StageLayout.GatherWrite` | platform/registry/registry-page.c:257-294 | bytes written at the end of the last unit are appended to what the runs read as |
| `StageLayout.HitsOfRuns` | platform/registry/registry-page.c:303-314 | the extents of a record name exactly the units the stage held |
| `PageStore.PageStore.StageExtents` | platform/registry/registry-page.c:303-314 | one extent for each run, all whole but the last, which ends with the data |
| `PageRules.StageCompatible` | platform/registry/registry-page.c:316-350 | a record made of the stage shares no unit with any other record |
| `PageRules.StageHandsOver` | platform/registry/registry-page.c:316-350 | the units pass from stage to record with no change to the map |
| `PageRules.StageContents` | platform/registry/registry-page.c:316-350 | the new record reads as exactly the bytes staged, and every other blob as before |
| `PageStore.PageStore.KeepStage` | platform/registry/registry-page.c:316-350 | the blob is kept whole under its digest exactly when neither the barrier nor the record put fails; else the store is as it was |
| `PageStore.PageStore.StageEnd` | platform/registry/registry-page.c:316-350 | a digest already held drops the copy, an empty stage or a length that differs is refused, and anything else is kept whole exactly when neither the barrier nor the record put fails, in every medium a cut can leave |
| `PageStore.PageStore.StageAbort` | platform/registry/registry-page.c:352-356 | the medium is untouched and the stage holds nothing |
| `PageStore.PageStore.BlobMap` | platform/registry/registry-page.c:370-392 | gives exactly the bytes the store holds under the digest, and says it could not read or map them only when a call failed |
| `PageStore.PageStore.BlobDrop` | platform/registry/registry-page.c:407-424 | takes away that blob and no other exactly when it is held and its record can be deleted, reports a missing one, and after a failure holds what it held |
| `PageRules.DropContents` | platform/registry/registry-page.c:407-424 | without one record every other blob reads as before |
| `PageStore.PageStore.ClaimBlob` | platform/registry/registry-page.c:531-552 | succeeds exactly when nothing on the map speaks against the blob, and only then marks it |
| `PageRules.ClaimableIff` | platform/registry/registry-page.c:531-552 | on a map that counts the records, a claim succeeds exactly on a blob that can join them |
| `PageRules.ClaimCompatible` | platform/registry/registry-page.c:531-552 | a claimed blob can join the records and holds no unit of the stage |
| `PageStore.PageStore.VisitRebuild` | platform/registry/registry-page.c:554-567 | one file of the walk is kept if it fits with those before it, else deleted, and the map follows |
| `PageStore.PageStore.Init` | platform/registry/registry-page.c:588-604 | in any directory order: no record is discarded exactly when the records fit together, the blobs read as before, and the map is exact exactly when no unit has more than 255 owners |
| `PageRules.AgreeIffCountable` | platform/registry/registry-page.c:104-111 | the saturating map is the exact one exactly when every unit has at most 255 owners |
| `PageRules.CrowdHasNoMap` | platform/registry/registry-page.c:104-111 | 256 adopted blobs on one unit are records a partition can hold, and no map of bytes counts them |
| `PageStore.PageStore.Adopt` | platform/registry/registry-page.c:631-663 | the bytes at the place become a blob exactly when there are some, they clash with nothing and no call fails; the map stays exact exactly when no unit of the extent was full |
| `PageRules.AdoptExact` | platform/registry/registry-page.c:631-663 | one more record keeps the counts exact exactly when none of its units has 255 owners |
| `PageRules.AdoptUndone` | platform/registry/registry-page.c:631-663 | a claim given back restores the map exactly when none of its units was full |
| `PageStore.PageStore.VisitCheck` | platform/registry/registry-page.c:670-696 | for any record, the extents that lie in the partition are added to the owners counted and the others are counted as outside |
| `PageStore.PageStore.Check` | platform/registry/registry-page.c:698-719 | in every reachable state no unit differs from its count and nothing is out of range; shared and free units are counted right |
| `PageRun.Do` | platform/registry/registry-page.c:246-424 | a step that is done adds a blob whole, takes one away or leaves all, exactly as it was asked; it is refused only if a call failed or it cannot be done, and then changes nothing but a failed stage; every medium it passes through held the blobs from before or after it |
| `PageRun.Reset` | platform/registry/registry-page.c:588-604 | from any medium a cut could leave, the store starts again with the blobs from before or after the step that was cut |
| `PageRun.Run` | platform/registry/registry-page.c:246-663 | for every run with a reset after or inside any step, each moment follows from the one before and the outcome of the step: what was staged becomes a blob byte for byte, an adopted blob is the bytes that were on the flash, a step is refused only if a call failed in it or it cannot be done, and a cut step is as if done or not |
| `PageStore.Recover` | platform/registry/registry-page.c:588-604 | starting again from what a reset leaves gives back every blob byte for byte, and drops the stage |
| `Capacity.Insert` | platform/registry/registry-page.c:175-201 | the list stays sorted and loses its least element |
| `Capacity.InsertKeeps` | platform/registry/registry-page.c:175-201 | the list of the longest runs seen stays that after one more run |
| `Capacity.TopIsBest` | platform/registry/registry-page.c:175-201 | the sum of that list is the most that 32 runs have together |
| `Capacity.LargestTake` | platform/registry/registry-page.c:172-201 | the report is the longest run on a contiguous store and the most that 32 free runs have together on a scattered one |
| `Capacity.ScatteredTake` | platform/registry/registry-page.c:215-244 | units taken and units still ahead are together the first 32 free runs in address order |
| `Capacity.ScatteredReport` | platform/registry/registry-page.c:172-244 | no uninterrupted stage takes more than the report; it can take exactly that exactly when no later free run is longer than one of the first 32 |
| `Capacity.ContiguousReport` | platform/registry/registry-page.c:152-244 | on a contiguous store a stage takes the whole longest run and no more |
| `Capacity.TakesAll` | platform/registry/registry-page.c:215-244 | every stage goes on, unit by unit, to one that can take nothing more |
| `Capacity.ReportOverstates` | platform/registry/registry-page.c:172-244 | with 32 runs of one unit and a longer run after them, a stage that can take no more took 32 units and the report says more |
| `Capacity.Overstated` | platform/registry/registry-page.c:172-244 | the report there, and a stage that took less and can take no more |
| `MemStore.MemStore.Find` | platform/registry/registry-mem.c:49-55 | the slot of a digest, or none exactly when the store does not hold it |
| `MemStore.MemStore.StageWrite` | platform/registry/registry-mem.c:74-99 | takes all the bytes exactly when they are within the limit and there is memory, else none |
| `MemStore.MemStore.StageEnd` | platform/registry/registry-mem.c:106-132 | keeps the staged bytes under the digest unless it is held, and refuses a new one exactly when every slot is used; the byte total stays that of the blobs |
| `MemStore.MemStore.BlobMap` | platform/registry/registry-mem.c:139-153 | gives the bytes held and counts one more map of that digest alone |
| `MemStore.MemStore.BlobUnmap` | platform/registry/registry-mem.c:155-161 | counts one map fewer, never below none |
| `MemStore.MemStore.BlobDrop` | platform/registry/registry-mem.c:169-182 | refuses a mapped blob, reports a missing one, and otherwise takes away that blob alone |
| `StoreAgreement.Both` | platform/registry/registry-mem.c:106-182 | a step both stores accept or refuse is that step on a plain table and leaves both with it; they part only where a call failed, no unit or slot is left, the memory limit is reached or the blob is mapped |
| `StoreAgreement.Restart` | platform/registry/registry-page.c:588-604 | after a reset the page store holds what it held, and the stage is gone |
| `StoreAgreement.Lockstep` | platform/registry/registry-page.c:246-604 | step by step, resets included, both stores hold what a plain table holds, byte for byte, up to the first step one could do and the other not, which is one that a failed call or want of room kept one from; with no failed call no step is refused but a removal of what is not held |
| `RecordCodec.Encode` | src/registry-record.c:30-63 | the buffer holds the stored form, or 0 is given and nothing is written when it does not fit or has too many layers |
| `RecordCodec.Decode` | src/registry-record.c:95-132 | bytes are read as the record they stand for, of either format |
| `RecordCodec.OlderRecordRead` | src/registry-record.c:65-93 | a record as the older format dumped it is read, from a build with as many slots, with its used digests, size, key and signature, no sequence and no times, and a length only where there is one layer; refused exactly when it counts more layers than slots |
| `RecordCodec.OlderBytesAll` | src/registry-record.c:65-93 | any bytes with the older magic that are long enough are such a record, and shorter ones are refused |
| `RecordCodec.RecordRoundTrip` | src/registry-record.c:30-132 | every record reads back as itself, whatever follows it, exactly when the build holds its layers, and else is refused |
| `RecordCodec.RecordLayout` | src/registry-record.c:30-63 | where each field of a stored record is, down to the magic, every layer and the signature |
| `RecordCodec.RecordBytesBack` | src/registry-record.c:30-132 | bytes read as a record are its stored form exactly when the two reserved bytes are zero |
| `RecordCodec.OlderRecordSurvives` | src/registry-record.c:65-132 | an older record, once read, is kept whole when written in the present format |
| `RecordCodec.HexValue` | src/registry-record.c:145-151 | a value exactly for the sixteen lower-case digits, and the digit it belongs to |
| `RecordCodec.DigestToHex` | src/registry-record.c:134-143 | two lower-case digits for each byte, the high half first |
| `RecordCodec.DigestFromHex` | src/registry-record.c:153-166 | succeeds exactly on the text of a digest, and gives that digest |
| `RecordCodec.HexInjective` | src/registry-record.c:134-166 | distinct digests have distinct texts |
| `RegistryKeys.KeyOrder` | src/registry.c:98-102 | the key order is total and strict |
| `RegistryKeys.TextBeforeIff` | src/registry.c:98-102 | a text sorts before another exactly when, past what they share, it ends or goes on with a lesser character |
| `RegistryKeys.BeforeIff` | src/registry.c:98-102 | a key sorts before another exactly when its name does so, or the names are equal and its version does |
| `RegistryKeys.SortedUnique` | src/registry.c:104-115 | a set of keys has one sorted listing |
| `RegistryKeys.SortKeys` | src/registry.c:104-115 | the first keys are put in order, each kept as often as it was |
| `Registry.Registry.ReadMeta` | src/registry.c:163-188 | the record of a key, or its resident image exactly where there is no record |
| `Registry.Registry.ListKeys` | src/registry.c:211-234 | with a complete listing, every entry once, in order |
| `Registry.Registry.Newest` | src/registry.c:249-261 | the scan keeps the greatest sequence, and the first in order among those that tie |
| `Registry.Registry.Resolve` | src/registry.c:236-263 | with complete listings, finds an entry exactly when one can be read: a versioned key its own, a bare name the newest of that name |
| `RegistryRules.NewestUnique` | src/registry.c:236-263 | there is one newest entry of a name |
| `RegistryRules.LatestFound` | src/registry.c:236-263 | a bare name finds an entry exactly when it is the installed version of that name committed last |
| `RegistryRules.InstalledBeatsResident` | src/registry.c:163-263 | a bare name finds an installed entry exactly when some installed one of it has a sequence, or some installed one sorts before every image of it that is only resident |
| `RegistryRules.OlderRecordLoses` | src/registry.c:236-263 | a record of the older format is passed over for a resident image that sorts before it |
| `Registry.Registry.ListedDigests` | src/registry.c:278-312 | when it says the set is complete, it is exactly the digests that readable records list; it fails only on a failed call, more than 50 records, more than 64 digests, or with no store |
| `Registry.Registry.Held` | src/registry.c:314-324 | whether a layer waits for the blob or a slot maps it |
| `Registry.Registry.DropBlob` | src/registry.c:337-342 | the one place a blob is dropped: its preconditions are that nothing lists it, waits for it or maps it, and that the store has no map of it out |
| `Registry.Registry.DropAllIfFree` | src/registry.c:326-343 | only blobs nothing needs go; none of them stays unless a call failed or the records do not fit a listing |
| `RegistryRules.FreedKeeps` | src/registry.c:326-343 | freeing what nothing needs leaves every listed and waiting digest held |
| `RegistryRules.FreedMaps` | src/registry.c:326-343 | freeing what nothing needs leaves every mapped blob stored and the map counts balanced |
| `Registry.Registry.Free` | src/registry.c:326-350 | once the spare blobs are freed nothing leaks, nothing dangles and the cached listing still holds |
| `Registry.Registry.Reclaim` | src/registry.c:352-375 | at the start every blob no record lists goes, unless a call failed or the records, their digests or a store's blobs do not fit a listing |
| `Registry.Registry.EnsureReady` | src/registry.c:377-401 | starting leaves nothing leaked, nothing newly dangling, and a counter past every record, unless a call failed or something does not fit a listing |
| `Registry.Registry.SlotFor` | src/registry.c:423-438 | the slot of that layer, else an unused one, else the one taken longest ago |
| `Registry.Registry.PendingAdd` | src/registry.c:414-449 | the layer waits in one slot and what that slot held is freed if nothing else needs it; a layer waits at most once |
| `RegistryRules.SlotKeeps` | src/registry.c:414-449 | taking a slot for a layer held somewhere leaves nothing dangling and at most what it replaced spare |
| `Registry.Registry.Gather` | src/registry.c:508-523 | the layers are those waiting for the entry, base first, and the size is their sum; refused exactly by a missing layer or a sum past 32 bits, whichever comes first |
| `Registry.Registry.ClearSlots` | src/registry.c:544-557 | every slot of the entry is emptied and every layer past the count is freed: the guard on the list of freed digests never discards one |
| `Registry.Registry.SyncSeq` | src/registry.c:461-477 | the counter is at least every sequence there is, when all records could be read |
| `Registry.Registry.Prepare` | src/registry.c:488-537 | what a commit would put, each way it is refused, and, while no call fails, exactly when it is not |
| `Registry.Registry.CommitLocked` | src/registry.c:488-559 | while no call fails and the records fit, done exactly when the count is in range, every layer waits, their sum fits 32 bits, and the entry exists or there is room for one; missing exactly where a layer is; the record lists exactly the layers that waited, newer than every other while the counter has not wrapped; nothing leaks or dangles; the commit is logged last and keeps commit order the order of sequences; a refused one changes nothing |
| `RegistryRules.CommitSound` | src/registry.c:488-559 | every digest a commit lists was waiting, so it is held |
| `RegistryRules.CommitSpare` | src/registry.c:540-557 | after a commit only the replaced record and the layers past the count can leave a blob spare |
| `RegistryRules.CommitInOrder` | src/registry.c:535-541 | a commit under the next sequence keeps commit order the order of sequences, while the counter does not wrap |
| `Registry.Registry.StageWriteLocked` | src/registry.c:561-577 | the hash sees exactly the bytes the store took, it takes them unless it fails, and the first failure sticks |
| `Registry.Registry.StageStart` | src/registry.c:627-657 | an open stage holds the bytes taken, exactly unless a call failed; else none is open |
| `Registry.Registry.KeepStage` | src/registry.c:596-608 | the bytes are kept under their own hash exactly when the store keeps them, whole or not at all |
| `RegistryRules.KeptHolds` | src/registry.c:603-608 | a blob newly kept disturbs no map and no other blob, and only it may be spare |
| `Registry.Registry.StageFinishLocked` | src/registry.c:585-615 | a failed or empty stage keeps nothing; else the hash of the bytes waits and is held unless the store fails, and on the plain route it is the one layer of the entry, committed last, which while no call fails is refused exactly for want of room for an entry |
| `Registry.Registry.WriteLayer` | src/registry.c:617-677 | how each kind of write ends, exactly, and what it does to the stage, the waiting layers, the records, the commit order and the cached listing |
| `Registry.Registry.Remove` | src/registry.c:741-766 | while no call fails and the records fit: missing exactly when the key finds no entry, refused exactly when the one it finds is seeded, else that entry goes and the blobs only it needed with it |
| `Registry.Registry.RemoveEntry` | src/registry.c:757-763 | the record is gone and nothing leaks or dangles |
| `RegistryRules.RemovedHolds` | src/registry.c:757-763 | once a record is gone only the blobs it named may be spare |
| `Registry.Registry.SetSignature` | src/registry.c:965-988 | while no call fails and the records fit, done exactly when the key finds an entry that is installed, and refused when it is only resident; only the key id, the signature and one flag of that record change; the commit order and the cached listing stay |
| `Registry.Registry.MarkSeeded` | src/registry.c:1014-1029 | while no call fails and the records fit, the installed entry the key finds is flagged if it was not; only that flag changes; the commit order and the cached listing stay |
| `RegistryRules.RewrittenHolds` | src/registry.c:965-1029 | a record rewritten with the same layers changes neither what is needed nor what is visible |
| `Registry.Registry.MapBlob` | src/registry.c:778-835 | done, missing or out of slots exactly by whether the blob is mapped, held and a slot is free, and a failed call is the only other end; one more user of the blob, sharing the map there is; a failure leaves every table as it was |
| `RegistryRules.SlotTaken` | src/registry.c:778-835 | one slot for a digest, one digest at a place, and the store has one map out for each slot |
| `RegistryRules.SlotLeft` | src/registry.c:837-853 | the last user going gives the map back to the store it came from |
| `Registry.Registry.UnmapPtr` | src/registry.c:837-853 | one user fewer of the blob at that place; the last frees it if nothing needs it; places still in use stay |
| `Registry.Registry.MapLayers` | src/registry.c:855-879 | while no call fails and the records fit, done exactly when the key finds an entry, each of its layers is mapped or held, and there is a free slot for each distinct one not mapped; the layers come topmost first, each at the place of its digest, with one user more each; a load that fails part way restores every count |
| `RegistryRules.LoadingMore` | src/registry.c:855-879 | a layer mapped leaves free slots and layers not yet mapped in step, so a repeated layer takes no second slot |
| `RegistryRules.LoadingEnds` | src/registry.c:855-879 | a load that maps every layer was possible, and one that stops for a layer held nowhere or for want of a slot was not |
| `Registry.Registry.UnmapLayers` | src/registry.c:896-948 | each layer returned takes back exactly one user |
| `Registry.Registry.AddResident` | src/registry.c:1031-1068 | an image replaces the one of its key or takes a free slot, and is refused exactly when there is neither; nothing dangles exactly when what it replaced is held elsewhere or needed by nothing |
| `Registry.Registry.ClearResident` | src/registry.c:1219-1224 | nothing dangles exactly when the stores hold all that is listed and waiting |
| `Registry.Registry.VisibleBlobs` | src/registry.c:1100-1121 | every distinct digest an entry names and something holds, in listing order, to the limit of 64 |
| `Registry.Registry.BlobAt` | src/registry.c:1144-1160 | a walk from 0 reads the listing afresh and later places read that one, which stays what reading again would give while nothing dangles; a listing that cannot be read gives no blob |
| `Registry.Registry.Refresh` | src/registry.c:1144-1160 | the cached listing is what the entries and stores show now; one that cannot be read is cached as empty |
| `RegistryRules.StillShows` | src/registry.c:1144-1160 | staging, dropping and mapping leave the cached listing right while nothing dangles |
| `RegistryRules.ShowsOne` | src/registry.c:1144-1160 | two listings of the same state are equal |
| `RegistryRules.KeptShows` | src/registry.c:1144-1160 | keeping a blob that was held nowhere changes what a listing shows exactly when the walk reaches its digest before 64 blobs |
| `Registry.StaleListing` | src/registry.c:585-1160 | a run with no failure after which the cached listing lacks a blob that an entry names and the store holds |
| `Registry.Registry.BlobLookup` | src/registry.c:1123-1142 | found only if held and named by an entry, with a length some entry gives it |
| `Registry.Registry.LinkLayer` | src/registry.c:1195-1217 | while no call fails and the records fit, done exactly when the layer is in range, the blob is held and some entry names it; it then waits as a layer of the other entry |
| `Registry.Registry.Deinit` | src/registry.c:1232-1248 | nothing is staged, waiting or mapped, every store has its maps back, and no blob or record changes |
| `Registry.Registry.Cut` | src/registry.c:377-401 | a reset loses what was staged, waiting and mapped, and no stored blob or record |
| `Registry.FoundIsLatest` | src/registry.c:236-263 | a bare name that a load, a removal or a signing resolves is the version of it committed last |
| `Registry.OwesStarted` | src/registry.c:377-401 | starting first, which frees blobs, changes nothing of how a step ends |
| `Registry.Registry.Do` | src/registry.c:617-1248 | one call: what it did to the records, the log of commits, the counter, memory, the users of mapped blobs and the images; how it ended, exactly, when no store call failed in it; and when a listing may have been short |
| `Registry.Registry.Run` | src/registry.c:617-1248 | for every run of writes, links, commits, removals, loads, unloads, signings, listings, stops and resets: what each step did to the records, the commits, memory, the users of mapped blobs and the images, and how it ended, exactly, when no store call failed in it; nothing comes to dangle; while no call fails and all fits a listing nothing leaks, the cached listing is what reading again would give, and a bare name finds the installed version of it the run committed last, unless the 32-bit sequence could wrap |
| `DutyCycle.ExpiredIs` | src/vfs/vfs-lora.c:284-289 | expiry leaves exactly the air time that ended within the hour |
| `DutyCycle.AdmittedIff` | src/vfs/vfs-lora.c:284-313 | a frame fits exactly when what ended in the hour before leaves room |
| `DutyCycle.Account.Expire` | src/vfs/vfs-lora.c:284-289 | the ring holds the records less than an hour old |
| `DutyCycle.Account.Used` | src/vfs/vfs-lora.c:291-296 | the air time of every record in the ring |
| `DutyCycle.Account.WaitFor` | src/vfs/vfs-lora.c:298-313 | 0 means admitted now, never means never, and any other answer is the least delay after which the frame is admitted |
| `DutyCycle.Account.MergeOldest` | src/vfs/vfs-lora.c:316-322 | the two oldest become one that ends when the later of them did; the sum fits 32 bits |
| `DutyCycle.Account.Charge` | src/vfs/vfs-lora.c:315-326 | the account counts the new transmission, and a full one merges its oldest two |
| `DutyCycle.ChargedCounts` | src/vfs/vfs-lora.c:315-326 | merging counts air time for longer, never for less, and changes no total |
| `DutyCycle.ChargeSafeIff` | src/vfs/vfs-lora.c:668-724 | one more transmission keeps every hour within the budget exactly when the hour it ends has room |
| `DutyCycle.ChargeKeeps` | src/vfs/vfs-lora.c:315-326 | charging an admitted frame keeps every hour within the budget |
| `DutyCycle.RaceOverruns` | src/vfs/vfs-lora.c:683-711 | two frames checked before either is charged can overrun an hour |
| `LoraRadio.ChargeCovers` | src/vfs/vfs-lora.c:245-261 | the milliseconds charged cover the frame exactly when its microseconds round up within 32 bits |
| `LoraRadio.ChargeFallsShort` | src/vfs/vfs-lora.c:245-261 | a channel the settings allow, any frame of which is charged for less than its air time |
| `LoraRadio.LongerTakesLonger` | src/vfs/vfs-lora.c:245-261 | a longer frame is never on air for less |
| `LoraRadio.DataSheetTimes` | src/vfs/vfs-lora.c:235-261 | the times on air that the data sheet gives for three channels |
| `LoraRadio.BandFor` | src/vfs/vfs-lora.c:272-282 | the first band that holds the whole channel, or none exactly when none does |
| `LoraRadio.BudgetMs` | src/vfs/vfs-lora.c:328-330 | the whole milliseconds of an hour that the duty, in thousandths, allows, rounded down |
| `LoraRadio.Radio.constructor` | src/vfs/vfs-lora.c:162-197 | a radio registered is nobody's, asleep, with no channel and nothing sent in any band |
| `LoraRadio.Radio.Claim` | src/vfs/vfs-lora.c:385-408 | an owned radio is refused to anyone else, and only the first claim wakes it |
| `LoraRadio.Radio.Release` | src/vfs/vfs-lora.c:410-430 | the owner leaving sleeps the radio and forgets its channel; what was sent stays charged |
| `LoraRadio.Radio.Configure` | src/vfs/vfs-lora.c:593-611 | a channel the chip takes is kept whole, one it refuses changes nothing, and a receiving radio resumes or stands by |
| `LoraRadio.Radio.Listen` | src/vfs/vfs-lora.c:648-653 | receives exactly when a channel is set and the chip starts |
| `LoraRadio.Radio.Halt` | src/vfs/vfs-lora.c:654-657 | stands by exactly when the chip stops |
| `LoraRadio.Radio.Transmit` | src/vfs/vfs-lora.c:700-724 | a frame that went on air is charged and counted, and it is reported sent exactly when it went and receiving was restored |
| `LoraRadio.Radio.AdmitsByTheHour` | src/vfs/vfs-lora.c:284-313 | a frame is admitted only if what went on air in the hour before leaves room, and whenever it does until records were merged |
| `LoraRadio.Radio.WriteTx` | src/vfs/vfs-lora.c:666-724 | refused outside every band and exactly when the account does not admit it; how it ends, exactly, by what the chip answers; what the chip put on air is charged in its band, once; the length asked for is kept once a band is found |
| `LoraRadio.Radio.ReadyMs` | src/vfs/vfs-lora.c:741-753 | the least delay after which a frame as long as the last asked for is admitted, an hour when it never is |
| `LoraRadio.Radio.EveryHourWithinBudget` | src/vfs/vfs-lora.c:284-335 | in every band the air time that ended in any hour is within its budget |
| `LoraRadio.Do` | src/vfs/vfs-lora.c:386-753 | one call, as a step between the radio before and after it |
| `LoraRadio.Run` | src/vfs/vfs-lora.c:386-753 | for every run across owners and channels, each call changes the radio exactly as the chip's answers say, what the chip put on air is what the accounts hold, and in every band every hour of it is within the budget |
| `LoraQueue.RxQueue.Push` | src/vfs/vfs-lora.c:204-230 | a frame is queued only while receiving and intact, and a full queue loses its oldest |
| `LoraQueue.RxQueue.PopRecords` | src/vfs/vfs-lora.c:803-837 | as many whole records as fit, in order, with the bytes of exactly those |
| `LoraQueue.RxQueue.Release` | src/vfs/vfs-lora.c:412-430 | the next owner starts with no frame and no loss |
| `LoraQueue.Conservation` | src/vfs/vfs-lora.c:204-230 | frames accepted are delivered, queued or counted lost, and each record counts exactly the frames lost since the one before |
| `LoraQueue.InOrder` | src/vfs/vfs-lora.c:817-837 | records are delivered in the order their frames came |
| `LoraQueue.ParseOfAllBytes` | src/vfs/vfs-lora.c:786-815 | a reader recovers every record of a read from its bytes |
| `LoraQueue.RecordLayout` | src/vfs/vfs-lora.c:788-817 | where each field of a record is, and the byte order of its numbers |
| `FrameBuffer.AlignToBytes` | src/vfs/vfs-fb.c:718-730 | the least rectangle on whole bytes that covers the request |
| `FrameBuffer.WidenByBacking` | src/vfs/vfs-fb.c:732-753 | what the backing asks for, cut at the edge, exactly when it covers the rectangle |
| `FrameBuffer.FlushExactIff` | src/vfs/vfs-fb.c:700-716 | a flush shows exactly the rectangle it reports, whatever the pixels, exactly when its columns fall on bytes |
| `FrameBuffer.Observer.QueueDamage` | src/vfs/vfs-fb.c:686-697 | one more rectangle, or the whole screen in place of all when the ring is full |
| `FrameBuffer.Observer.PopDamage` | src/vfs/vfs-fb.c:846-863 | as many rectangles as fit the buffer, in order, move from the ring to the reader |
| `FrameBuffer.TellKeeps` | src/vfs/vfs-fb.c:686-716 | an observer told of a flush, or of the whole screen, is owed every byte in which it differs |
| `FrameBuffer.RowSettles` | src/vfs/vfs-fb.c:620-641 | re-reading the first row of a rectangle owed leaves the rows under it owed and all else as it was |
| `FrameBuffer.AgreesOnPixels` | src/vfs/vfs-fb.c:611-641 | outside the rectangles it is owed, an observer has the flushed pixels |
| `FrameBuffer.Screen.WriteData` | src/vfs/vfs-fb.c:620-641 | as many bytes as fit are stored, and nothing is shown |
| `FrameBuffer.Screen.Attach` | src/vfs/vfs-fb.c:374-404 | an observer is taken exactly when there is a place for it and, for the first, memory for the copy; the first has the flushed copy made from the live pixels; a refusal changes nothing |
| `FrameBuffer.AttachAll` | src/vfs/vfs-fb.c:374-404 | an observer is registered on every screen of a grant exactly when each can take it, else on none, and a failure part way leaves each screen as it was |
| `FrameBuffer.Screen.Detach` | src/vfs/vfs-fb.c:360-372 | that observer goes, and with the last one the flushed copy |
| `FrameBuffer.Screen.CopyRows` | src/vfs/vfs-fb.c:700-711 | the rows of the rectangle are copied and no other byte |
| `FrameBuffer.Screen.PublishFlush` | src/vfs/vfs-fb.c:699-716 | the flushed copy takes the rectangle and every observer stays in step |
| `FrameBuffer.Screen.FlushRect` | src/vfs/vfs-fb.c:755-768 | the least rectangle on whole bytes, widened to what the backing asks for where that covers it: every pixel of it is shown, every other is as it was, and every observer is told |
| `FrameBuffer.Screen.ReadDamage` | src/vfs/vfs-fb.c:846-882 | what is read is owed until it is re-read |
| `FrameBuffer.Screen.ReadRow` | src/vfs/vfs-fb.c:610-641 | the observer takes over one row of the flushed bytes of a rectangle it holds, and still holds the rows under it |
| `FrameBuffer.Screen.DrainedHoldsScreen` | src/vfs/vfs-fb.c:687-863 | an observer that is owed nothing holds the flushed screen exactly |
| `FrameBuffer.Do` | src/vfs/vfs-fb.c:361-863 | one call, as a step on values of the screen and all its observers |
| `FrameBuffer.Run` | src/vfs/vfs-fb.c:361-863 | every run of a writer and observers that come and go is a run on values, step by step: what each call does to the pixels, the flushed copy and every observer; and at its end each observer sees the flushed screen outside what it is owed, and one owed nothing holds it whole |
| `LogText.StampFits` | src/log-store.c:72-78 | a stamp of any 64-bit uptime fits its buffer, so none is dropped |
| `LogText.DigitsRead` | src/log-store.c:72-78 | the digits of a stamp read back as its time, the most significant first, with no zero before them |
| `LogText.RenderConcat` | src/log-store.c:218-260 | however a stream is split into calls, its lines are stamped in the same places |
| `LogStore.LogRing.Push` | src/log-store.c:207-216 | the ring holds the last bytes of all it was given |
| `LogStore.Persist.Append` | src/log-store.c:184-205 | the live half holds the last bytes of all it was given, and the other half is untouched |
| `LogStore.Persist.TurnOver` | src/log-store.c:135-150 | the half last written is kept and readable exactly when its header and length are sound, and the other becomes live and empty |
| `LogStore.Store.Scan` | src/log-store.c:95-109 | the ring of that name, else the first unused, else the one used longest ago |
| `LogStore.Store.RingFor` | src/log-store.c:92-116 | a name has its own ring, or takes an emptied one under its first 14 characters; no other ring changes |
| `LogStore.Store.Append` | src/log-store.c:218-260 | the ring of that name takes the output, stamped where a line begins with the time the clock then gives, and the engine's text goes to the live half as well; the name is found afterwards exactly when it is no longer than 14 characters |
| `LogStore.CutNameAliases` | src/log-store.c:92-116 | a longer name is not found again, and its first 14 characters find the ring its output went to |
| `LogStore.LongNameLost` | src/log-store.c:92-116 | such a name on an empty log |
| `LogStore.Store.Read` | src/log-store.c:262-302 | a slice of the end of the stamped stream, or of what the boot before left; a read counts as use |
| `LogStore.Store.Attach` | src/log-store.c:118-169 | opened once: what the boot before left is exactly what its live half held, and the boot reason opens the new half |
| `LogStore.Store.Detach` | src/log-store.c:171-182 | nothing is mirrored or readable as previous any more |
| `LogStore.Reset` | src/log-store.c:118-169 | after a reset the rings are empty, the previous log is the end of all the engine wrote in the boot before, and the reason opens the new one |
| `LogStore.Do` | src/log-store.c:118-302 | one event is that event on the log as a value: what was logged, read or lost, and what the next boot reads of this one |
| `LogStore.Run` | src/log-store.c:118-302 | every run of output, reads and resets is a run of the log as a value, event by event, and the live half is the end of this boot's engine text |
| `LogStore.PageOverRun` | src/log-store.c:92-302 | over a run, a ring not given to another name has taken exactly what was logged to its name, in order |
| `LogStore.BootOverRun` | src/log-store.c:118-260 | from a reset on, while the engine's ring is its own, the boot's text is its reason and the engine's output, stamped where a line begins |
| `Sha256.FillSchedule` | platform/posix/sha256.c:43-55 | the schedule of section 6.2.2 step 1 of FIPS 180-4 |
| `Sha256.ChBits` | platform/posix/sha256.c:61-61 | bit by bit, the second word where the first is set, else the third |
| `Sha256.MajBits` | platform/posix/sha256.c:64-64 | bit by bit, the majority of the three |
| `Sha256.BigSigma0Bits` | platform/posix/sha256.c:63-63 | bit by bit, the exclusive or of the word turned right by 2, 13 and 22 |
| `Sha256.BigSigma1Bits` | platform/posix/sha256.c:60-60 | bit by bit, the exclusive or of the word turned right by 6, 11 and 25 |
| `Sha256.SmallSigma0Bits` | platform/posix/sha256.c:50-51 | bit by bit, the exclusive or of the word turned right by 7 and 18 and shifted right by 3 |
| `Sha256.SmallSigma1Bits` | platform/posix/sha256.c:52-53 | bit by bit, the exclusive or of the word turned right by 17 and 19 and shifted right by 10 |
| `Sha256Vector.CubeRootConstants` | platform/posix/sha256.c:21-33 | each constant is the first 32 bits of the fraction of the cube root of a prime, as section 4.2.2 of FIPS 180-4 has it |
| `Sha256Vector.SquareRootStart` | platform/posix/sha256.c:86-93 | each word of the initial hash value is the first 32 bits of the fraction of the square root of a prime |
| `Sha256.RunRounds` | platform/posix/sha256.c:59-75 | the 64 rounds of section 6.2.2 step 3 of FIPS 180-4 |
| `Sha256.Context.CompressBlock` | platform/posix/sha256.c:39-79 | one block into the hash value as section 6.2.2 of FIPS 180-4 has it |
| `Sha256.Context.constructor` | platform/posix/sha256.c:81-97 | the initial hash value of section 5.3.3 of FIPS 180-4 |
| `Sha256.Context.Update` | platform/posix/sha256.c:99-116 | the context stands for the whole message however it is cut into calls |
| `Sha256.PaddedIs` | platform/posix/sha256.c:118-131 | the zeros the code lays down are the fewest that section 5.1.1 of FIPS 180-4 asks for |
| `Sha256.Context.Final` | platform/posix/sha256.c:118-139 | the digest is the hash of the padded message, as sections 5.1.1 and 6.2 of FIPS 180-4 define it |
| `Sha256Vector.DigestOfAbc` | platform/posix/sha256.c:39-139 | the hash of "abc" is the published digest, round by round |
| `RtcTime.DateAtNumber` | src/rtc/rtc-time.c:38-90 | counting days one by one and adding up years, months and days agree |
| `RtcTime.DayNumberInjective` | src/rtc/rtc-time.c:38-90 | no two dates are the same number of days from the epoch |
| `RtcTime.DaysInMonth` | src/rtc/rtc-time.c:30-36 | the month lengths are the Gregorian ones in the years the clock covers |
| `RtcTime.YearOf` | src/rtc/rtc-time.c:42-53 | the year and the day of it, by cycles of four years |
| `RtcTime.MonthOf` | src/rtc/rtc-time.c:55-59 | the search stops at a month from 1 to 12 |
| `RtcTime.UnixToTm` | src/rtc/rtc-time.c:38-69 | for exactly the seconds from 2000 to 2099, the date a day-by-day Gregorian count gives, the time of day and the weekday |
| `RtcTime.TmToUnix` | src/rtc/rtc-time.c:71-90 | refuses exactly what is not a calendar time; the sum is that second, and no step leaves 32 bits |
| `RtcTime.UnixInjective` | src/rtc/rtc-time.c:38-90 | two calendar times of one second differ at most in the weekday, so the conversions undo each other |

## Left out

- FrameBuffer.Screen.FlushRect: requires a rectangle the backing gives, where it is taken, to be whole bytes of columns, since the code trusts it; `FrameBuffer.FlushExactIff` says what holds otherwise.
- PageStore.PageStore.StageWrite: requires that no write to the stage failed before, which is the caller's rule: the bytes of a failed write may no longer be erased.
- PageStore.PageStore.StageEnd: requires that no write to the stage failed, which is the caller's rule, not a check in the store.
- PageRun.Do: requires that an adopt overruns no unit's count of 255, and `PageRun.Run` leaves such a step out; `PageStore.PageStore.Adopt` covers it and says what holds.
- PageStore.Recover: requires at most 255 owners of a unit; `PageStore.PageStore.Init` covers every medium and says what holds past that.
- Registry.Registry.AddResident: requires that an address holds one digest; two images of different lengths at one address would share it.
- Registry.Registry.Run: threads are not interleaved within a call, and a reset falls between calls.
- Registry.Registry.Prepare: the record is put as a value; its bytes are the codec's.
- Sha256.Context.Final: the length field is taken modulo 2^64, as the code does; the standard covers messages below that.
- LogStore.Run: a reset falls between calls, not inside one.
- Registry calls that only report (entry listing, blob information, capacity, whether an entry is mapped, reading a record) add easy members.
- Splitting a ref into name and version, and the text of keys past 15 characters.
- The page store's record files for entries, its directory creation and its capacity text.
- The framebuffer's mode nodes and control text.
- The LoRa control and status text, grants, descriptors and blocking reads.
- Listing log names.
- Parsing of clock writes and the names of clock sources.
- Network drivers, the WebAssembly host, hardware drivers, compression and signature checking.
