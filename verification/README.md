# RAOfflineProxy client: a verified model

A Dafny model of the Python client under `linux/raofflineproxy`, and proofs about it. Each module
follows one part of the client, in its own terms and its own form: classes where objects or
tables are changed, loops where the client loops, functions where it computes.

- **Disc images** (`Bytes`, `LaggedFibonacci`, `RvzPacked`, `WiiHashTree`, `RvzContainer`,
  `RvzExceptions`, `RvzFormat`, `RvzDataSource`): an RVZ container is read at random offsets.
  `RvzContainer` says, without any cache, what every byte of the disc is; `RvzDataSource` is the
  reader with its three kinds of cache; the others are the packed-record decoder, the generator of padding bytes and the Wii
  hash tree. `RvzFormat` and `RvzExceptions` say independently what a writer stores and what decrypting
  a sector gives.
- **Offline awards** (`AwardChain`, `AwardTable`, `AwardProtocol`, `AwardQueueing`, `Flusher`,
  `AwardRequest`): the signed list of queued awards, the table it lives in, every interleaving of what
  changes it, which awards get in, one undisturbed flush, and the request an award is sent with.
- **Caching games** (`CacheBudget`, `CacheQueue`, `RomLookup`, `DrainSystem`, `CacheDrain`,
  `SmartCache`): the budget window, the queue, which game a ROM is, the steps of several drainers with
  one lock, the drain itself, and a bulk run over many ROMs. `DrainSystem` proves its bounds over every
  interleaving of steps; a drain is a sequence of such steps, and while it waits with the lock free
  the others take theirs.
- **Emulator settings** (`IniText`, `IniSection`, `AchievementsIni`, `DolphinIni`): patching, patching again and
  reverting an ini text.
- **Bookkeeping** (`UsageStats`, `GameMetaIndex`, `AchievementLookup`, `FormParams`, `Decimal`, `Text`):
  usage counters of several processes, the metadata index beside the response cache, the search
  for an achievement's game, and form bodies.

Hashes, HMAC, AES, decompression, JSON parsing, UTF-8, the server's replies and requests to pause are
parameters; what other processes do meanwhile is a nondeterministic choice, and clocks are integers.
`dafny verify dfyconfig.toml` checks the project.

## What the proofs found

- 30 minutes hold at most 199 games exactly if the first charge ever comes at the epoch or at least
  30 minutes after it. An unset window counts as opened at time 0, so any first charge in between
  allows 200 (`CacheBudget.KeepsTo199Exactly`).
- The time of a usage report is read before the report lock is taken. A report that is due is the
  only one of its day exactly if its time is not before that of the last report; otherwise the day
  can get two although the clock never goes back (`UsageStats.OnePerDayExactly`).
- Queueing and purging hold different locks. What a purge deletes leaves the chain intact exactly if
  no pending award stands behind a processed one and no queueing has read its predecessor while
  there is something to delete (`AwardProtocol.PurgeKeepsLinksExactly`). An award queued behind
  processed ones between the purge's check and its delete breaks the chain (`OverlapBreaksChain`);
  as long as the user deletes nothing in between, one queued into a table that was empty at the check
  does not (`OverlapGuard`). A deletion in between can make the delete unsafe even after an empty
  check (`DeletionMakesPurgeUnsafe`). A broken chain is always repairable (`EveryRunIsRepairable`).
- The generator skips whole words only: a run at an offset that is not a multiple of 4 starts
  like the run at the next multiple above (`LaggedFibonacci.GeneratedDrops`).
- The second byte the generator writes of a word overlaps the first: its upper two bits repeat the lower
  two of the first, and two bits of the word are never written (`LaggedFibonacci.GeneratedWords`).
- A maximum that is reached while a report is on its way is dropped with the one the report sent
  (`UsageStats.MergedMeanwhileStays`).
- A game that a drain has stored can go unreported in one way only: a 429 to that very request ends
  the drain (`CacheDrain.FetchedGamesAreReported`).
- Reverting an ini needs no condition on how often the section or a key occurs; all it needs is a
  host other than the proxy.
- Dolphin's patched file, patched again, keeps the host to go back to exactly if patching changes
  nothing (`DolphinIni.HostKeptExactly`). Any edit that patching would undo loses it: hardcore mode
  turned on, or the host line written without spaces. The other emulators keep what they captured
  first.
- A parameter name is written back undecoded, so a body survives rewriting exactly when each name
  reads as itself (`FormParams.RenderParsesExactly`).
- The two storage backends list different games exactly when a patch is stored for game 0
  (`GameMetaIndex.BackendsAgreeExactly`).

## Model

| member | source | states |
|---|---|---|
| `LaggedFibonacci.StreamRecurrence` | linux/raofflineproxy/rvz_datasource.py:695-700 | each of the 32 bits of a word of a run is the sum, without carry, of the same bit 521 and 32 words before, for every word |
| `LaggedFibonacci.SeedRecurrence` | linux/raofflineproxy/rvz_datasource.py:655-663 | the first words bit by bit: 17 are given, bit i of the others comes from bit i + 9 of the word 16 before (i < 23) or bit i - 23 of the one 17 before, and bit i of the one before; the run starts 2084 words later |
| `LaggedFibonacci.SeedMixBits` | linux/raofflineproxy/rvz_datasource.py:660 | which bits the two shifts of the seeding step move where, and which are masked off |
| `LaggedFibonacci.SameBits` | linux/raofflineproxy/rvz_datasource.py:655-700 | a number is determined by its bits, so the two recurrences determine the words |
| `LaggedFibonacci.GeneratedWords` | linux/raofflineproxy/rvz_datasource.py:674-692 | of every whole word of a run the first byte and the lower six bits of the second are the upper 14 bits, the upper two bits of the second repeat the lower two of the first, and the other two bytes are the lower 16 bits; the words start behind the offset within the sector, rounded up |
| `LaggedFibonacci.GeneratedPrefix` | linux/raofflineproxy/rvz_datasource.py:686-691 | a shorter run is the beginning of a longer one, so the bytes of a word that is cut off are those of the whole word |
| `LaggedFibonacci.WindowContinues` | linux/raofflineproxy/rvz_datasource.py:695-700 | starting over from the buffer after any number of advances continues the same infinite sequence |
| `LaggedFibonacci.SeedBuffer` | linux/raofflineproxy/rvz_datasource.py:655-663 | the seeding loop fills the buffer with the 17 given and the 504 derived words |
| `LaggedFibonacci.Advance` | linux/raofflineproxy/rvz_datasource.py:695-700 | overwriting the buffer in place, partly from words already overwritten, gives exactly the next 521 words |
| `LaggedFibonacci.WriteBytes` | linux/raofflineproxy/rvz_datasource.py:674-692 | over any number of refills the output bytes are those of consecutive words of the sequence, whose bits `BytesOfWord` names, and the returned index stands behind the last word used |
| `LaggedFibonacci.BytesOfWord` | linux/raofflineproxy/rvz_datasource.py:683-688 | the four bytes of a word by its bits: 14 of them, two repeated, and the lower 16 |
| `LaggedFibonacci.GenerateBytes` | linux/raofflineproxy/rvz_datasource.py:655-671 | for every offset, aligned or not, the run is the slice of the sequence of its seed that `GeneratedWords` describes byte by byte |
| `LaggedFibonacci.GeneratedDrops` | linux/raofflineproxy/rvz_datasource.py:655-671 | within a sector a run at `o + k` is the run at `o` without its first bytes; `k` bytes are dropped exactly when 4 divides `k` |
| `RvzPacked.DecodePacked` | linux/raofflineproxy/rvz_datasource.py:621-652 | the loop over both buffers computes the record-by-record meaning and never indexes outside them |
| `RvzPacked.EncodedDecodes` | linux/raofflineproxy/rvz_datasource.py:621-652 | decoding encoded records that fill the group gives their expansion, whatever bytes follow |
| `RvzPacked.DecodedIsEncoded` | linux/raofflineproxy/rvz_datasource.py:621-652 | whatever decodes is the encoding of records that fill the group, each run seeded at group start plus output position |
| `RvzPacked.DecodedExactly` | linux/raofflineproxy/rvz_datasource.py:621-652 | the decoder returns `out` if and only if the input begins with records that fill the group and expand to `out` |
| `RvzPacked.ExpandAt` | linux/raofflineproxy/rvz_datasource.py:633-647 | behind the records before it a copy stands as it is, and a run is the one generated for group start plus its place |
| `RvzPacked.SeedWordsEncode` | linux/raofflineproxy/rvz_datasource.py:643 | the 17 words of a seed are its bytes, four by four, big-endian |
| `RvzPacked.BytesOfU32` | linux/raofflineproxy/rvz_datasource.py:87-96 | four bytes are an encoded number exactly if they weigh 2^24, 2^16, 2^8 and 1 in it |
| `WiiHashTree.BuildHashBlocks` | linux/raofflineproxy/rvz_datasource.py:703-730 | 64 separate header buffers filled in place, none overwriting a region of another, end as the computed headers |
| `WiiHashTree.ConsistentExactly` | linux/raofflineproxy/rvz_datasource.py:703-730 | headers form a consistent three-level tree if and only if they are the computed ones |
| `WiiHashTree.HeaderDigests` | linux/raofflineproxy/rvz_datasource.py:703-730 | every digest and every zero byte of a computed header, with the offsets written out |
| `WiiHashTree.HashChunks` | linux/raofflineproxy/rvz_datasource.py:707-712 | the in-place loop leaves the 31 chunk digests in the first table and the other regions alone |
| `WiiHashTree.CopySubgroup` | linux/raofflineproxy/rvz_datasource.py:714-721 | the subgroup table reaches all eight blocks and its hash is the subgroup's entry of the top table |
| `RvzContainer.ReadRun` | linux/raofflineproxy/rvz_datasource.py:262-305 | bytes of the image in front of a read come out in front of the rest of the read |
| `RvzContainer.ReadSplits` | linux/raofflineproxy/rvz_datasource.py:262-305 | reading to a middle offset and then on from where that stopped is one read to the end |
| `RvzContainer.ReadIsOfImage` | linux/raofflineproxy/rvz_datasource.py:262-305 | a read returns image bytes in order and stops only at its end or before a byte the container lacks; it fails exactly when the first byte that cannot be had fails |
| `RvzContainer.ReadIsComplete` | linux/raofflineproxy/rvz_datasource.py:262-305 | where every byte can be had a read gives exactly `min(length, disc length - offset)` bytes of the image |
| `RvzContainer.CoveringReadIsComplete` | linux/raofflineproxy/rvz_datasource.py:262-305 | so it does everywhere when ranges cover the disc, raw entries have a chunk for each byte, and chunks and groups decode |
| `RvzContainer.GroupDecrypts` | linux/raofflineproxy/rvz_datasource.py:355-363 | for every deciphering that undoes the cipher: in each of the 64 sectors of a group the first 0x400 bytes decrypt under a zero IV to the header made of hash tree and exceptions, and the rest under the IV at 0x3D0 of that sector to the cluster |
| `RvzFormat.SectorDecrypts` | linux/raofflineproxy/rvz_datasource.py:262-363 | the same for any whole sector of a partition that is read from the disc, and the cluster is the decrypted one at 0x7C00 times its number in the partition |
| `RvzFormat.SectorByte` | linux/raofflineproxy/rvz_datasource.py:321-336 | byte `x` of sector `b` of a partition's group `g` is byte `0x8000 * b + x` of that group |
| `RvzFormat.SectorOfChunk` | linux/raofflineproxy/rvz_datasource.py:370-389 | for chunks of whole sectors a sector's cluster stands at the sector's place in its chunk, and is missing beyond the entry's chunks |
| `RvzFormat.ClusterOfChunk` | linux/raofflineproxy/rvz_datasource.py:370-390 | for any chunk size: a cluster comes from the chunk its first byte is in and is missing where it is not all there |
| `RvzFormat.GroupFails` | linux/raofflineproxy/rvz_datasource.py:338-354 | an encrypted group is missing exactly if its clusters are, and is had exactly if they and the exceptions are and each exception lies in a header |
| `RvzFormat.ClustersFail` | linux/raofflineproxy/rvz_datasource.py:343-349 | the clusters fail as the first one that cannot be had |
| `RvzFormat.PartGroupFails` | linux/raofflineproxy/rvz_datasource.py:437-449 | data that cannot be unzipped or is too short for its lists makes reading fail |
| `RvzFormat.SectorEntry` | linux/raofflineproxy/rvz_datasource.py:370-391 | the first data entry that holds a sector supplies it; one that none holds is missing |
| `RvzFormat.ChunkOfSectors` | linux/raofflineproxy/rvz_datasource.py:376-381 | which group a chunk is, how many bytes it has, where it starts and how many lists it has, counted in sectors |
| `RvzFormat.ClustersOfGroup` | linux/raofflineproxy/rvz_datasource.py:343-349 | a group consists of the clusters of its sectors, and of zero bytes beyond the partition |
| `RvzFormat.RawByte` | linux/raofflineproxy/rvz_datasource.py:280-305 | which byte of which group a byte of a raw entry is, chunk by chunk, with the last chunk cut at the entry's end |
| `RvzFormat.FoundExactly` | linux/raofflineproxy/rvz_datasource.py:307-319 | the partition found is the first one that has the byte's sector, the raw entry the first that has the byte |
| `RvzFormat.HeaderByte` | linux/raofflineproxy/rvz_datasource.py:273-277 | the first 0x80 bytes are the disc header |
| `RvzFormat.UncoveredByte` | linux/raofflineproxy/rvz_datasource.py:280-305 | a byte that nothing covers is missing |
| `RvzFormat.ListsRead` | linux/raofflineproxy/rvz_datasource.py:602-618 | exception lists that were written are read back, and what follows them is found, aligned or not |
| `RvzFormat.RawGroupReads` | linux/raofflineproxy/rvz_datasource.py:462-508 | a raw group is what was stored: as it is, unzipped, unpacked or both, cut to size; and when it cannot be had |
| `RvzFormat.PartGroupReads` | linux/raofflineproxy/rvz_datasource.py:427-460 | a partition group gives back the written lists and data, whether stored compressed, packed, both or neither; too little plain data is missing, bad packed data fails |
| `RvzFormat.EmptyOrBrokenGroup` | linux/raofflineproxy/rvz_datasource.py:427-496 | an empty group is zero without exceptions; a number beyond the table or bytes beyond the file fail |
| `RvzExceptions.LastExceptionWins` | linux/raofflineproxy/rvz_datasource.py:733-739 | every header byte is that of the last exception over it, or that of the hash tree where there is none |
| `RvzExceptions.OverwritingFails` | linux/raofflineproxy/rvz_datasource.py:733-739 | overwriting fails exactly when an exception lies in none of the 64 headers |
| `RvzExceptions.VisitedExactly` | linux/raofflineproxy/rvz_datasource.py:393-407 | the chunks looked at for a group are exactly those that share a byte with it and their entry |
| `RvzExceptions.ChunkAdds` | linux/raofflineproxy/rvz_datasource.py:408-424 | which of a chunk's lists counts and where its exceptions land: behind the headers of the clusters before the chunk in its group |
| `RvzExceptions.NoChunkAddsNothing` | linux/raofflineproxy/rvz_datasource.py:408-409 | a chunk beyond the entry's groups adds nothing |
| `RvzExceptions.ListOfGroup` | linux/raofflineproxy/rvz_datasource.py:418-420 | of several lists the one at whose distance from the chunk's start the group starts |
| `RvzExceptions.HeadersBeforeCluster` | linux/raofflineproxy/rvz_datasource.py:421-423 | a chunk that starts at cluster n of a group comes behind n headers |
| `RvzExceptions.EntryAmong` | linux/raofflineproxy/rvz_datasource.py:393-425 | entries add their exceptions in their order |
| `RvzExceptions.EntryAdds` | linux/raofflineproxy/rvz_datasource.py:405-424 | an entry adds those of every chunk it shares with the group, in the order of the chunks |
| `RvzExceptions.CollectedFrom` | linux/raofflineproxy/rvz_datasource.py:393-425 | and nothing else is collected |
| `RvzDataSource.ReadFully` | linux/raofflineproxy/rvz_datasource.py:517-526 | however short the single reads of the source are, the whole range arrives or the read fails |
| `RvzDataSource.ParseExceptionLists` | linux/raofflineproxy/rvz_datasource.py:602-618 | the nested loops return all lists and the aligned end, or fail on a short table |
| `RvzDataSource.ApplyExceptions` | linux/raofflineproxy/rvz_datasource.py:733-739 | overwriting header buffers in place equals the overwriting of values, and fails exactly when an exception does not fit |
| `RvzDataSource.Reader.ReadGroup` | linux/raofflineproxy/rvz_datasource.py:462-492 | from the one-entry cache or not, the group is what the container holds for that chunk |
| `RvzDataSource.Reader.ReadPartitionGroup` | linux/raofflineproxy/rvz_datasource.py:427-460 | the same for a partition's group with its exception lists |
| `RvzDataSource.Reader.ReadDecrypted` | linux/raofflineproxy/rvz_datasource.py:368-391 | the cluster comes from the first data entry that covers its offset |
| `RvzDataSource.Reader.CollectExceptions` | linux/raofflineproxy/rvz_datasource.py:393-425 | all hash exceptions of a group, from every chunk of every entry that overlaps it, moved to their place |
| `RvzDataSource.Reader.GetEncryptedGroup` | linux/raofflineproxy/rvz_datasource.py:338-366 | from the partition's cache or rebuilt, the encrypted group is the same bytes, and those are the ones `GroupDecrypts` pins |
| `RvzDataSource.Reader.ReadPartitionBytes` | linux/raofflineproxy/rvz_datasource.py:321-336 | bytes of a partition are bytes of the image |
| `RvzDataSource.Reader.Read` | linux/raofflineproxy/rvz_datasource.py:262-305 | after any history of reads, a read returns what the cacheless image says for disjoint ranges and unshared groups; what that is for sectors and raw bytes say `SectorDecrypts` and `RawByte` |
| `RvzDataSource.GroupBytes` | linux/raofflineproxy/rvz_datasource.py:307-336 | every slice of an encrypted group is a run of image bytes |
| `RvzDataSource.RawGroupBytes` | linux/raofflineproxy/rvz_datasource.py:280-305 | every slice of a raw group is a run of image bytes |
| `AwardChain.VerifyChain` | linux/raofflineproxy/flusher.py:127-151 | it accepts exactly the chains in which every hashed row agrees with itself and names its predecessor, and otherwise reports the first fault |
| `AwardChain.RepairChain` | linux/raofflineproxy/flusher.py:154-180 | it succeeds exactly when payload hashes match; the result verifies and differs only in link, signature and signing time |
| `AwardChain.AppendRow` | linux/raofflineproxy/proxy_service.py:881-905 | a consistent award linked to the last row extends a valid chain |
| `AwardTable.Storage.GetPendingAwards` | linux/raofflineproxy/storage.py:854-871 | all stored rows, whatever their order in storage, in the order of `(queuedAt, id)` |
| `AwardTable.Storage.UpsertPendingAward` | linux/raofflineproxy/storage.py:896-952 | a row changed where it stands or appended gives, in order, the upserted table, still with one row per achievement |
| `AwardTable.OrderedIsUnique` | linux/raofflineproxy/storage.py:854-871 | two lists in order with the same rows are the same, so the order of storage does not matter |
| `AwardTable.UpsertRows` | linux/raofflineproxy/storage.py:905-952 | storing replaces the row of the same achievement, keeps its id, touches no other row, and never stores the warning achievement |
| `AwardTable.UpsertInPlace` | linux/raofflineproxy/storage.py:905-952 | writing back an award with its queue time leaves every row where it was |
| `AwardTable.UpsertAtEnd` | linux/raofflineproxy/storage.py:905-952 | an award queued no earlier than the rest goes to the end of the order |
| `AwardTable.Storage.PurgeIfSafe` | linux/raofflineproxy/flusher.py:504-514 | an undisturbed purge empties the table or does nothing |
| `AwardProtocol.NextInv` | linux/raofflineproxy/proxy_service.py:859-911 | every step of queueing, flushing, repairing, deleting and purging keeps the shared invariant |
| `AwardQueueing.UnlockedIsNeverStored` | linux/raofflineproxy/proxy_service.py:874-879 | over every interleaving from the empty table, an achievement whose queueings all find it unlocked is never queued or stored, has no life, and nobody ever holds a copy of it |
| `AwardQueueing.FreshIsStored` | linux/raofflineproxy/proxy_service.py:866-905 | from every reachable state, whatever happens between the two halves of a queueing: an award neither stored nor unlocked is stored by the second half with its path, body, user agent and time, pending, with no retry or error, hashed and signed over the latest award of when it began; no other award is touched |
| `AwardQueueing.BeginsExactly` | linux/raofflineproxy/proxy_service.py:866-881 | a queueing begins if and only if none is under way and its id is not a real one that is stored or unlocked; otherwise nothing changes |
| `AwardProtocol.EveryRunIsRepairable` | linux/raofflineproxy/flusher.py:288-319 | in every reachable state of any interleaving rows agree with themselves, so only links can be broken and repair succeeds |
| `AwardProtocol.NoAwardLost` | linux/raofflineproxy/flusher.py:321-345 | in every reachable state a queued award is stored or was ended by success, user, hardcore or absence; of an achievement queued several times each queueing by itself: the last is stored or was ended, and every earlier one was ended by a final status written in its own life |
| `AwardProtocol.NextLifeInv` | linux/raofflineproxy/proxy_service.py:859-911 | every step keeps each life of each achievement accounted for |
| `AwardQueueing.PendingCanEnd` | linux/raofflineproxy/flusher.py:386-478 | in every reachable state a pending award can be flushed with any reply or deleted by the user; its row then says so and no other row changes |
| `AwardQueueing.PurgeEmpties` | linux/raofflineproxy/flusher.py:504-514 | check and delete in a row empty a table without pending awards and leave any other as it is |
| `AwardProtocol.RowsLeaveByPurge` | linux/raofflineproxy/flusher.py:504-514 | a row leaves the table only by a purge and only with a final status that has a recorded reason |
| `AwardProtocol.ErrorsKeepPending` | linux/raofflineproxy/flusher.py:386-501 | over any run with any number of failed sends, an award that no success, deletion or stale verdict ends stays pending |
| `AwardProtocol.GuardedRunsVerify` | linux/raofflineproxy/proxy_service.py:866-905 | with a clock that never goes back and current copies, queueing may fall inside purges: as long as deletes are safe the chain verifies in every reachable state without repair |
| `AwardProtocol.PurgeKeepsLinksExactly` | linux/raofflineproxy/flusher.py:504-514 | in every such state a delete leaves a chain that verifies, now and once the queueing under way is done, if and only if no pending award stands behind a processed one and no queueing has read its predecessor while there is something to delete |
| `AwardProtocol.OverlapGuard` | linux/raofflineproxy/flusher.py:504-514 | after a check that found nothing pending, with queueing but no user deletion in between, the delete is safe if and only if nothing was there at the check, or nothing is pending and no queueing will still store |
| `AwardProtocol.OverlapWithDeletions` | linux/raofflineproxy/flusher.py:504-514 | with user deletions in between, too, behind rows that were there at the check the delete is safe if and only if nothing is pending and no queueing will still store |
| `AwardProtocol.DeletionMakesPurgeUnsafe` | linux/raofflineproxy/pending_awards.py:65-72 | a concrete run: two awards queued after an empty check and the first deleted by the user make the delete unsafe |
| `AwardProtocol.DisciplinedRunsVerify` | linux/raofflineproxy/proxy_service.py:866-905 | one lock around queueing and purging makes every delete safe, so the chain verifies in every reachable state |
| `AwardProtocol.OverlapBreaksChain` | linux/raofflineproxy/proxy_service.py:282-283 | a concrete unsafe run: an award queued between the purge's check and delete leaves a chain that does not verify |
| `Flusher.PrepareChain` | linux/raofflineproxy/flusher.py:288-319 | a flush never stops on the chain when rows agree with themselves; it changes nothing or relinks every row |
| `Flusher.WriteBack` | linux/raofflineproxy/flusher.py:301-319 | storing repaired copies one by one ends with exactly those rows |
| `Flusher.TryAward` | linux/raofflineproxy/flusher.py:386-478 | one award changes to the status its outcome demands, which `FlushedMeans` says by the server's reply; every other row stays |
| `Flusher.FlushedMeans` | linux/raofflineproxy/flusher.py:386-478 | what becomes of an award by hardcore test, live data and reply alone: stale with its reason, flushed, or pending with the message, and a retry counted only where the server could not be reached |
| `Flusher.FlushLoop` | linux/raofflineproxy/flusher.py:344-478 | the whole table after the loop, and the counts that add up with what stays pending |
| `Flusher.FlushPendingAwards` | linux/raofflineproxy/flusher.py:281-501 | an undisturbed flush that completes counts as flushed exactly the pending awards that are neither hardcore nor absent and whose reply is a success, as stale those stored so and the hardcore and absent ones, and `total = flushed + skipped_deleted + skipped_stale + already flushed + pending_remaining`; an abort counts nothing and changes nothing but links |
| `Flusher.TableAfterFlush` | linux/raofflineproxy/flusher.py:386-490 | the table afterwards, by replies alone: empty if no award is kept, else every award in its place; a rejected or unreachable one is still stored, pending, with the message, its retry count one up exactly for an unreachable server |
| `Flusher.CountsAddUp` | linux/raofflineproxy/storage.py:1010-1052 | the four statuses partition the rows |
| `AwardRequest.OffsetSeconds` | linux/raofflineproxy/flusher.py:82-83 | the age in whole seconds, between 0 and 14 days, positive exactly from one second on |
| `AwardRequest.BuildAwardRequestBody` | linux/raofflineproxy/flusher.py:86-115 | the body is the queued one with token, validation hash, age and chain fields written in this order, for every body; a number that is not one raises |
| `AwardRequest.RequestParses` | linux/raofflineproxy/flusher.py:86-115 | the sent body, parsed again, is the queued parameter list with the edits applied one after the other |
| `AwardRequest.RequestMeans` | linux/raofflineproxy/flusher.py:86-115 | from one second on exactly one `o` in 1..1209600 and one `v` for that same `o`; each chain field once; all other parameters keep value and order |
| `AwardRequest.ValidationMeans` | linux/raofflineproxy/flusher.py:97-104 | which parameters the hash is over: the last of several counts and an empty one does not, then the award's own id, no user, and hardcore 0 |
| `AwardRequest.RequestFailsExactly` | linux/raofflineproxy/flusher.py:96-99 | building the request fails exactly when the unlock is a second old and a number it needs is none |
| `AwardRequest.ChainFieldsSent` | linux/raofflineproxy/flusher.py:107-115 | each chain field carries its own value of the award, and an unhashed award keeps whatever was queued |
| `AwardRequest.ExtractSays` | linux/raofflineproxy/utils.py:21-22 | the value found is that of the last parameter of the name, if it is not empty |
| `AwardRequest.UpdatedMeans` | linux/raofflineproxy/utils.py:44-62 | after one replacement the name stands once and everything else stays as and where it was |
| `AwardRequest.UpdateAllMeans` | linux/raofflineproxy/flusher.py:91-114 | replacements of different names do not disturb each other |
| `FormParams.ReplaceOrAppendFormParam` | linux/raofflineproxy/utils.py:44-62 | the loop writes the parsed list with the first match replaced, later ones dropped or the pair appended |
| `FormParams.RenderParsesExactly` | linux/raofflineproxy/utils.py:44-62 | a list written with raw names and encoded values parses back to itself if and only if every name reads as itself |
| `FormParams.QuoteUnquotes` | linux/raofflineproxy/utils.py:44-62 | `unquote_plus(quote_plus(v)) == v` for every text |
| `FormParams.QuotedAs` | linux/raofflineproxy/utils.py:46-57 | letters, digits and `_.-~` stay, a space becomes `+`, every other byte `%` and two upper-case hex digits |
| `FormParams.HexDigitsRead` | linux/raofflineproxy/utils.py:44-45 | hex digits are read in either case, and nothing else is one |
| `FormParams.PieceWithoutValue` | linux/raofflineproxy/utils.py:44-45 | a piece without `=` is a name without a value, an empty piece is skipped |
| `FormParams.FirstNameShort` | linux/raofflineproxy/utils.py:44-62 | a name with `&` or `=` in it never comes back whole |
| `CacheBudget.UsedWithinLimit` | linux/raofflineproxy/cache_budget.py:30-49 | every run of charges after a check that left room keeps `used` in 0..100 and the last charge inside its window |
| `CacheBudget.NothingLeftExactly` | linux/raofflineproxy/cache_budget.py:30-49 | nothing is left exactly while a pause lasts or the current window is used up; a window that is over or ahead of the clock counts as unused |
| `CacheBudget.IntervalBound` | linux/raofflineproxy/cache_budget.py:30-39 | how many games an interval holds, by where the current window lies relative to it |
| `CacheBudget.AtMost199` | linux/raofflineproxy/cache_budget.py:30-49 | at most 199 games in any half-open 30 minutes when the first charge opens its own window, and never more than 200 |
| `CacheBudget.TwoHundredNearEpoch` | linux/raofflineproxy/cache_budget.py:22-49 | from every first charge strictly between the epoch and 30 minutes after it, a legal run that reaches 200: an unset window counts as opened at 0 |
| `CacheBudget.KeepsTo199Exactly` | linux/raofflineproxy/cache_budget.py:22-49 | all runs whose first charge is at a given time keep to 199 if and only if that time is the epoch itself or at least 30 minutes after it |
| `CacheQueue.RemoveRow` | linux/raofflineproxy/cache_queue.py:140-141 | exactly the rows of that key go |
| `CacheQueue.UpdateRow` | linux/raofflineproxy/cache_queue.py:136-137 | only the row of that key changes, and it is there afterwards even if it was removed before |
| `DrainSystem.Storage.ChargeGame` | linux/raofflineproxy/cache_budget.py:93-94 | one more game used in the window of the present time, and it is one never charged before |
| `DrainSystem.Storage.PauseUntil` | linux/raofflineproxy/cache_budget.py:97-100 | the pause is never shortened and nothing else changes |
| `DrainSystem.Storage.TryLock` | linux/raofflineproxy/cache_queue.py:161-201 | while waiting the others take their steps; the lock comes with what was known before, and the rows of `mine` as they were; it is missed only while somebody has it, and by one that waits only if asked to pause |
| `DrainSystem.ChargeKeepsInv` | linux/raofflineproxy/rom_browser.py:811-834 | a game stored after a check that left room can be charged: the budget holds and the game is a new one |
| `DrainSystem.SharedStepKeepsInv` | linux/raofflineproxy/cache_queue.py:112-146 | time, patches, pauses and rows added or removed, by whoever and with or without the lock, keep the invariant of the whole system |
| `DrainSystem.DrainerStepKeepsInv` | linux/raofflineproxy/rom_browser.py:731-854 | taking the lock, looking up what is cached, checking the budget, storing or giving up a game, noting it and letting the lock go keep it, too |
| `DrainSystem.ChargeStepKeepsInv` | linux/raofflineproxy/rom_browser.py:828-834 | and so does charging |
| `DrainSystem.EveryRunKeepsInv` | linux/raofflineproxy/cache_queue.py:204-224 | over every interleaving of any number of drainers that take the lock, hand it over in the middle and lose it, the invariant holds in every state |
| `DrainSystem.EveryRunIsBounded` | linux/raofflineproxy/rom_browser.py:749-854 | in every state of every such run no game is cached or charged twice, `used` is at most 100, and 30 minutes hold at most 199 games (200 if the first charge did not open its window) |
| `DrainSystem.OthersAreRely` | linux/raofflineproxy/cache_queue.py:215-224 | whatever steps the others take while a drainer waits, what it knew stays true and its rows stay as they were |
| `CacheDrain.PacedSpan` | linux/raofflineproxy/rom_browser.py:712-728 | paced starts spread over at least 18 seconds each |
| `CacheDrain.RoomForOneMore` | linux/raofflineproxy/rom_browser.py:782-829 | a start whose time check lies within the batch time has fewer than 119 before it |
| `CacheDrain.NextRom` | linux/raofflineproxy/rom_browser.py:768-776 | the oldest row, or the first given key that still has a row; no row of a given key is forgotten |
| `CacheDrain.WaitForPace` | linux/raofflineproxy/rom_browser.py:719-728 | with the lock free others may run; a true answer means the time has come, and a false one that a pause was asked for at the last poll and at none before |
| `RomLookup.AnswerLocally` | linux/raofflineproxy/rom_browser.py:627-641 | the cache names the first game before any hash it knows too little of, and denies a match if and only if every hash has a miss less than 7 days old |
| `RomLookup.LookUp` | linux/raofflineproxy/rom_browser.py:868-890 | the first hash that leads to a game or an error decides, and none is found if and only if none does |
| `RomLookup.AskingAgrees` | linux/raofflineproxy/rom_browser.py:486-497 | where the cache has an answer, asking gives the same one whatever the server would reply; otherwise some hash is left to the server |
| `RomLookup.OneMeaning` | linux/raofflineproxy/rom_browser.py:857-920 | the answers determine what a request comes to |
| `CacheDrain.CacheQueuedRom` | linux/raofflineproxy/rom_browser.py:857-920 | the outcome, if and only if in the answers: no match iff neither cache nor server names a game, already cached iff the game is known, cached iff it is not, nothing failed and its patch is there, rejected iff a lookup or the caching was, and failed otherwise |
| `CacheDrain.CacheAndCharge` | linux/raofflineproxy/rom_browser.py:811-834 | exactly the cached game is charged, once, under the same lock, so a stop right after cannot repeat either |
| `CacheDrain.GamesMatchMore` | linux/raofflineproxy/rom_browser.py:811-854 | one more report keeps it true that every reported game was cached since the drain began, and none twice |
| `CacheDrain.RecordFailedAttempt` | linux/raofflineproxy/rom_browser.py:942-952 | the row keeps its place with one more attempt, coming back if it was removed meanwhile, or is dropped after the last |
| `CacheDrain.Round` | linux/raofflineproxy/rom_browser.py:782-854 | one turn of the loop keeps pace, knowledge, accounting and the shared invariant, and makes progress |
| `CacheDrain.DrainLocked` | linux/raofflineproxy/rom_browser.py:731-854 | all it does are steps of the system, the others' steps in between; every request comes to what its answers mean and is reported so, unless it ended the drain; nothing is reported but that and answers of the cache; what is reported as cached was cached and charged in this drain, once; every request follows its own look at the clock before the 30 minutes are over, at most 119 of them, paced from the 21st on, or once anybody has used 20 of the window; each row reported once and then gone, every other row of its own as before but one that failed; it stops for a pause or 429 exactly when it is told so, and never otherwise but for the reason it names; and it ends |
| `CacheDrain.FetchedGamesAreReported` | linux/raofflineproxy/rom_browser.py:811-854 | every game a drain has fetched and stored is charged and reported as cached, unless a 429 to that very request ended the drain |
| `CacheDrain.ReportsAreTrue` | linux/raofflineproxy/rom_browser.py:790-920 | no match is reported only for a ROM that cache or server deny, cached only for a game requested in this drain and charged |
| `CacheDrain.DrainCacheQueue` | linux/raofflineproxy/rom_browser.py:671-709 | the same for a drain that has to get the lock first; one that waits is busy only if asked to pause |
| `DrainSystem.SharedStateBounds` | linux/raofflineproxy/rom_browser.py:749-854 | what the invariant means: every charge belongs to another game, with the bounds above |
| `CacheDrain.OneStartMore` | linux/raofflineproxy/rom_browser.py:782-829 | one more request after a look at the clock within the batch time and past the pace keeps both bounds |
| `SmartCache.HashAll` | linux/raofflineproxy/smart_cache.py:251-278 | after hashing, a path has failed that could not be hashed, one is settled if and only if the cache denies a match or names a game known at the start, and every other waits for a row that is in the queue |
| `SmartCache.AllSettled` | linux/raofflineproxy/smart_cache.py:230-232 | when nobody waits any more there are as many results as paths |
| `SmartCache.ApplyReports` | linux/raofflineproxy/smart_cache.py:241-249 | exactly the paths of a reported row get the fate its outcome says |
| `SmartCache.FatesAre` | linux/raofflineproxy/smart_cache.py:241-310 | reports and remaining rows together give each path that hashing left open its one fate |
| `SmartCache.SettleRest` | linux/raofflineproxy/smart_cache.py:290-310 | what is left is queued exactly where its row is still there, and failed otherwise |
| `SmartCache.RunCachePaths` | linux/raofflineproxy/smart_cache.py:201-316 | every path hears exactly one result: from hashing, else from the report for its row, else from whether the row is still there; the reports are those of one drain that followed its answers; `scanned` exceeds `cached + skipped + queued` by exactly the paths that share a reported row, so they are equal when no two paths share a key |
| `IniText.SplitJoin` | linux/raofflineproxy/dolphin_cfg.py:110-157 | joining lines and splitting again gives the lines |
| `IniText.SplitLinesIsSplit` | linux/raofflineproxy/dolphin_cfg.py:160-180 | for `\n` texts `splitlines` and `split` differ only in a last empty line |
| `IniText.RenderedEntry` | linux/raofflineproxy/dolphin_cfg.py:126-148 | a written `key = value` line is read back as that key and value |
| `IniSection.UpdateSection` | linux/raofflineproxy/dolphin_cfg.py:110-157 | the loop over the lines, with its shrinking dict, computes the recursive update of the section's block |
| `IniSection.UpdateBlock` | linux/raofflineproxy/dolphin_cfg.py:126-148 | within the block the first line of a key takes its value and the rest is appended |
| `IniSection.ExtractValue` | linux/raofflineproxy/dolphin_cfg.py:160-180 | the first value of a key in any section of that name |
| `IniSection.UpdatedValues` | linux/raofflineproxy/dolphin_cfg.py:110-157 | after an update its keys have their values, all other keys theirs, and no line is duplicated |
| `IniSection.UpdatedTwice` | linux/raofflineproxy/dolphin_cfg.py:110-157 | an update that only sets values changes nothing when repeated |
| `IniSection.ExtractParts` | linux/raofflineproxy/dolphin_cfg.py:160-180 | what a text says about any section and key, from the parts before, in and after the updated block |
| `AchievementsIni.PatchedIni.Patch` | linux/raofflineproxy/achievements_ini.py:24-51 | the patched text, what was captured, and whether it was patched already |
| `AchievementsIni.PatchedIni.StorePrevious` | linux/raofflineproxy/achievements_ini.py:54-58 | a re-patch keeps what was captured first |
| `AchievementsIni.PatchedIni.Revert` | linux/raofflineproxy/achievements_ini.py:61-82 | the captured values go back, except the proxy's own host |
| `AchievementsIni.PatchAgain` | linux/raofflineproxy/achievements_ini.py:24-51 | patching a patched text changes nothing, and the text names the proxy as host |
| `AchievementsIni.RevertUndoes` | linux/raofflineproxy/achievements_ini.py:24-82 | for a host other than the proxy, patch and revert leave every value of every section and key |
| `AchievementsIni.RevertUndoesExactly` | linux/raofflineproxy/achievements_ini.py:24-82 | with the host given once, everything is restored if and only if the host was not the proxy already |
| `AchievementsIni.PatchedIni.PatchAndRevert` | linux/raofflineproxy/achievements_ini.py:24-82 | any run of one or more patches and one revert leaves every extracted value unchanged |
| `DolphinIni.DolphinFile.Patch` | linux/raofflineproxy/dolphin_cfg.py:13-41 | the patched text and what was captured; patched already only if nothing changes and the host is the proxy |
| `DolphinIni.DolphinFile.Revert` | linux/raofflineproxy/dolphin_cfg.py:55-107 | the captured host goes back unless it is the proxy, the hardcore setting or False if it was not set |
| `DolphinIni.DolphinFile.PatchAndRevert` | linux/raofflineproxy/dolphin_cfg.py:13-107 | any run of patches and one revert, undisturbed, leave every value but an unset or empty hardcore setting, which ends as False |
| `DolphinIni.DolphinUndoesExactly` | linux/raofflineproxy/dolphin_cfg.py:84-107 | everything is restored if and only if the hardcore setting was given |
| `DolphinIni.HostKeptExactly` | linux/raofflineproxy/dolphin_cfg.py:32-52 | a file that names the proxy is patched again: the stored host comes back on revert if and only if patching changes nothing |
| `DolphinIni.EditBetweenLosesHost` | linux/raofflineproxy/dolphin_cfg.py:32-52 | so hardcore mode turned on in a patched file loses the host, whatever was stored |
| `UsageStats.PendingCounters.Add` | linux/raofflineproxy/usage_stats.py:141-143 | one key grows by the amount, no other changes, and nothing is stored for zero |
| `UsageStats.PendingCounters.RecordRequest` | linux/raofflineproxy/usage_stats.py:145-159 | one request and at most one failure are counted: network without a status, rate limited for 429, server from 500 on; the window of 30 minutes and its maximum follow |
| `UsageStats.PendingCounters.Take` | linux/raofflineproxy/usage_stats.py:176-179 | everything is handed over once |
| `UsageStats.MergeAdds` | linux/raofflineproxy/usage_stats.py:182-188 | merging adds up, key by key |
| `UsageStats.CommitSubtracts` | linux/raofflineproxy/usage_stats.py:199-210 | committing takes off exactly what was reported, even if more was merged meanwhile |
| `UsageStats.MergeTakesMaximum` | linux/raofflineproxy/usage_stats.py:182-188 | of a maximum the larger value stays, and keys without pending counts stay as they are |
| `UsageStats.QuietReportEmpties` | linux/raofflineproxy/usage_stats.py:191-210 | a report that nothing is merged into sends every positive counter and leaves only its time |
| `UsageStats.MergedMeanwhileStays` | linux/raofflineproxy/usage_stats.py:191-210 | what is merged while a report is on its way is left for the next one, but of a maximum only if the report had none |
| `UsageStats.CommitsWereAccepted` | linux/raofflineproxy/usage_report.py:179-208 | over any interleaving no more reports are committed than the backend accepted |
| `UsageStats.StepKeepsKeyInv` | linux/raofflineproxy/usage_stats.py:182-210 | every step of every process keeps the conservation invariant |
| `UsageStats.CountersConserved` | linux/raofflineproxy/usage_stats.py:271-311 | over any interleaving, recorded = in memory + in flight + stored + accepted and committed |
| `UsageStats.AtMostOneReportPerDay` | linux/raofflineproxy/usage_report.py:179-208 | no two committed reports of one UTC day, as long as no report starts with a time older than the last |
| `UsageStats.StaleTimeReportsTwice` | linux/raofflineproxy/usage_report.py:168-208 | for every due time before the last report's a history, with a clock that never goes back, after which that time gives its day a second report |
| `UsageStats.OnePerDayExactly` | linux/raofflineproxy/usage_report.py:179-208 | after every history of fresh reports a due report is the only one of its day if and only if its time is not before the last report's |
| `GameMetaIndex.Storage.UpsertCache` | linux/raofflineproxy/storage.py:424-467 | both tables after an upsert, with first-cached time and ROM path kept, and the index in step |
| `GameMetaIndex.Storage.DeleteKeys` | linux/raofflineproxy/storage.py:699-852 | deleting any set of keys takes the same keys out of the index |
| `GameMetaIndex.Storage.RenameCacheKey` | linux/raofflineproxy/storage.py:722-731 | both tables after a rename, or nothing on a taken name |
| `GameMetaIndex.Storage.MigrateUserCase` | linux/raofflineproxy/storage.py:1101-1116 | the migration never fails on a taken name, keeps the index in step and leaves no user in upper case under the four prefixes |
| `GameMetaIndex.Storage.IndexMissing` | linux/raofflineproxy/storage.py:285-315 | batch by batch every missing row is added and the index is complete |
| `GameMetaIndex.RenameKeepsSyncExactly` | linux/raofflineproxy/storage.py:151-154 | a rename keeps the index in step if and only if the new key is of the same kind and means the same metadata |
| `GameMetaIndex.RenameFailsExactly` | linux/raofflineproxy/storage.py:722-731 | in tables that are in step a rename fails if and only if the new name is taken |
| `GameMetaIndex.PatchKeyRow` | linux/raofflineproxy/game_meta.py:35-48 | the key of a patch, as it is written, gives a row with its game, its title or a made-up one, and its image |
| `GameMetaIndex.SetsKeyRow` | linux/raofflineproxy/game_meta.py:51-66 | an achievement set has a game if and only if its body names a positive one |
| `GameMetaIndex.StoredTwice` | linux/raofflineproxy/storage.py:424-467 | a row stored again has the new body and time, the first time of all and the latest source that names a path; no other row changes |
| `GameMetaIndex.UserKeyLowers` | linux/raofflineproxy/storage.py:1119-1138 | which part of a key is the user: between the scope and the next colon |
| `GameMetaIndex.SetsKeyLowers` | linux/raofflineproxy/storage.py:1119-1138 | and in the key of an achievement set all behind the last colon |
| `GameMetaIndex.EvictionLeaves` | linux/raofflineproxy/storage.py:816-852 | eviction leaves exactly exempt rows and those not older than the given time |
| `GameMetaIndex.IndexLists` | linux/raofflineproxy/storage.py:579-603 | the index answers with the rows of the game asked for, or of all games, and never with game 0 |
| `GameMetaIndex.LowercasedMeansTheSame` | linux/raofflineproxy/storage.py:1119-1138 | lower-casing the user changes neither the kind of a key nor the game id in it |
| `GameMetaIndex.MigrationLeaves` | linux/raofflineproxy/storage.py:1101-1116 | for every key: it is there afterwards exactly if it stayed or an old spelling became it, and whose entry it holds |
| `GameMetaIndex.MigrationSettlesAll` | linux/raofflineproxy/storage.py:1101-1116 | a pass over all keys of a prefix loses no game, leaves other keys alone and never replaces an entry already stored in lower case |
| `GameMetaIndex.EveryRunKeepsSync` | linux/raofflineproxy/storage.py:140-154 | after every sequence of upserts, deletions, clearing, eviction and migration the index has exactly one correct row per patch and achievement set |
| `GameMetaIndex.BackendsAgreeExactly` | linux/raofflineproxy/storage.py:579-603 | the SQLite answer from the index equals the answer from parsing all bodies if and only if no patch is stored for game 0 |
| `Decimal.NumberOfText` | linux/raofflineproxy/cache_keys.py:71-76 | a number written into a key is read back |
| `AchievementLookup.BuildAchievementGameIds` | linux/raofflineproxy/rom_cache.py:384-427 | each achievement maps to its first definition, patches before sets |
| `AchievementLookup.PatchDefines` | linux/raofflineproxy/rom_cache.py:390-408 | a patch defines exactly the positive ids of its body, for the game in its key |
| `AchievementLookup.SetsDefine` | linux/raofflineproxy/rom_cache.py:410-425 | an achievement set defines exactly the positive ids of its list, or without one of its sets, each for its own positive game or else the body's; nothing without a positive game |
| `AchievementLookup.FirstGroup` | linux/raofflineproxy/rom_cache.py:355-381 | of several sets the first that has an id decides its game |
| `AchievementLookup.AllDefsJoined` | linux/raofflineproxy/rom_cache.py:390-425 | entries count one by one in their order |
| `AchievementLookup.LikelyFirst` | linux/raofflineproxy/rom_cache.py:458-462 | looked up are the likely game, then the ten played last, newest first and none twice, then all patches, then all achievement sets |
| `AchievementLookup.FindAchievementGameIds` | linux/raofflineproxy/rom_cache.py:430-455 | stopping early answers like the whole search, for the wanted ids only |
| `AchievementLookup.AnswersStay` | linux/raofflineproxy/rom_cache.py:453-454 | once all wanted ids are found, looking further changes no answer |
| `AchievementLookup.FilteredFirst` | linux/raofflineproxy/rom_cache.py:444-445 | leaving out bodies that do not define an id does not change its first definition |
| `AchievementLookup.SearchAgreesExactly` | linux/raofflineproxy/rom_cache.py:430-467 | for every likely game and order of recent games the search equals the full map on the wanted ids, if and only if no two games' patches define the same wanted id |
| `AchievementLookup.ConflictShows` | linux/raofflineproxy/rom_cache.py:458-462 | with such a conflict, naming a game as likely yields that game |
| `AchievementLookup.MergeStartSessionUnlockIds` | linux/raofflineproxy/rom_cache.py:321-352 | cached unlocks, then the user's pending ones of the game, each once in order of first appearance and no others |
| `AchievementLookup.DistinctInOrder` | linux/raofflineproxy/rom_cache.py:321-352 | the distinct ids come in the order in which they first occur |
| `AchievementLookup.PendingJoined` | linux/raofflineproxy/rom_cache.py:308-345 | award by award, one counts that is pending, not hardcore, the user's own, and of this game |
| `AchievementLookup.PositiveJoined` | linux/raofflineproxy/rom_cache.py:332-336 | cached ids count in their order if they are positive |
| `AchievementLookup.MergedUnlockIds` | linux/raofflineproxy/rom_cache.py:276-300 | through the search a session starts with the same unlocks as through the full map |

## Left out

- RvzDataSource.Reader.Read: says which bytes come back only for containers with disjoint ranges and unshared groups; for others the caches can answer with another entry's data, and only that they stay well-formed is stated.
- CacheDrain.DrainLocked: one clock stands for wall and monotonic time, and a row of the given keys is assumed untouched by other drainers, as a bulk run has it; the time of the next attempt that a result names is left out.
- DrainSystem.EveryRunKeepsInv: other processes may store patches and add or remove rows at any time, adding finitely many in all, but nobody removes cached games, clears the cache or charges the budget without the drain lock.
- RomLookup.LookUp: what the cache holds for each hash and what the server replies are inputs of their own for each request; that a reply or a cached game's aliases are written back to the cache is not modelled.
- AwardProtocol.DisciplinedRunsVerify: needs one lock around queueing and purging, which the client does not have; `GuardedRunsVerify` does without.
- AwardProtocol.PurgeKeepsLinksExactly: assumes that no two rows have the same payload hash and that none is the word `genesis`, as SHA-256 is used for.
- AwardProtocol.QueueBegin: the achievement id and whether it is unlocked already come with the request; how they are read from the `a` parameter and the cached unlocks is not modelled.
- AwardProtocol.NoAwardLost: awards with an id of 0 or less share one row and their queueings are not told apart; writing back a copy of an award that was already ended counts as an end of the present life.
- SmartCache.RunCachePaths: the run is not aborted; an aborted one removes what it queued and reports no more fates.
- Flusher.FlushPendingAwards: nobody else changes the table during the flush; a user deletion meanwhile can be overwritten by a stale copy and no count is claimed for it.
- UsageStats.CountersConserved: leaves out the `max_*` counters, which a report drops on purpose, clearing, and files that cannot be read or written; `record_batch` only adds more keys.
- GameMetaIndex.EveryRunKeepsSync: a listing for the migration is assumed to give keys that begin with the prefix; SQLite's `LIKE` also matches other letter cases, which keys built by `cache_keys.py` never have.
- GameMetaIndex.Storage.IndexMissing: no other process changes the cache between reading a batch and writing its rows.
- GameMetaIndex.GameIdOf: takes ASCII digits only.
- AchievementLookup.SearchAgreesExactly: the text filter is a parameter that must let every defining body pass; the regular expression itself is not modelled, nor are bodies whose achievements are not objects.
- FormParams.Parse: splits at `&` only, as current Python does; versions that also split at `;` are not covered, nor are texts with lone surrogates.
- AwardRequest.BuildAwardRequestBody: the age is computed on whole milliseconds, without the rounding of a float division.
- Container parsing (`_parse` and the entry tables): it only builds the data that the reader starts from.
- Decrypted blocks are values here; in the client they are slices of one buffer that nobody else holds.
- The JSON storage backend's file handling, corruption recovery and imports.
- HTTP, sockets, service processes, menus, images, updates and log upload; ROM hashing and decompression libraries.
- RetroArch's regular-expression patching, and the Android and backend parts of the repository.
