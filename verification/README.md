# A verified model of Stiva's storage engine

Stiva is a single-node S3 store. Its metadata lives in one ordered key-value
database per bucket: a "latest pointer" record per object and one history record
per version. This project models the parts of the engine where the code has to
reconcile something fast or concurrent with something simple, and proves that it
does, or states exactly when it does.

| modules | what they are about |
|---|---|
| `Keys`, `Records`, `Sequences` | byte strings in cursor order, the ordered bucket with its seek, put and delete, general facts about sequences |
| `ObjectListing`, `ObjectPaging`, `RunListing` | `ListObjects`: a page of the cursor skip-scan, what following continuation tokens adds up to, and what is listed after runs of puts and deletes |
| `VersionHistory`, `VersionStack`, `Versioning` | the metadata transactions, the version stack they refine over every run, and the engine's put, delete and head on top |
| `VersionListing`, `VersionPaging`, `StackListing`, `UploadListing` | `ListObjectVersions` and `ListMultipartUploads`, their page chains, and that a listing shows each key with its version stack |
| `LockMap`, `HandleCache`, `UploadRace`, `PutRace`, `Dispatcher` | concurrent protocols as atomic steps, proved over every interleaving |
| `Counter`, `CtrReadSeeker`, `Assembly`, `ChunkedPayload`, `CanonicalQuery` | byte transforms: counter-mode encryption with random access, objects on disk and multipart assembly, aws-chunked payloads with their signature chain, canonical query strings |
| `RateLimiter`, `Lifecycle`, `LifecycleBatches`, `Migration` | the console's token buckets with their sweeps, the lifecycle sweep, and the move of old single-database metadata that may fail or die anywhere |

Code that loops or updates state is a method or a class, proved equal to a
specification function or against the property it promises; the properties are
then proved about those functions. The protocols are state machines: a step is one
critical section, one lock operation or one access to disk or metadata, and a
theorem about a run holds for every sequence of enabled steps from the initial
state.

What the code is found not to do in general is stated as an exact condition, each
with a lemma at a concrete input where it fails:

* A listed object whose key ends in the delimiter is taken for a common prefix when
  it becomes a continuation token, so the keys that extend it can be missed
  (`ObjectPaging.ChainCompleteForAllPageSizes`,
  `RunListing.FolderObjectHidesItsContents`). Such an object and one that extends its
  key can both exist only if the bucket is versioned: otherwise the file of one would
  be the directory of the other, and the second put is refused. A StartAfter that ends
  in the delimiter hides the keys that extend it in any bucket
  (`ObjectPaging.StartAfterExact`, `RunListing.StartAfterHidesFolder`).
* `ListObjects` goes on past a common prefix by seeking to it followed by 0xFF. If a
  common prefix on the page is followed by 0xFF in a live key, the loop never ends
  (`ObjectListing.ScanEndsIff`, `ObjectListing.OneKeyTrapsTheScan`).
* A StartAfter below Prefix ends the page at the first key in between
  (`ObjectPaging.StartBelowPrefix`, `ObjectPaging.ScanCoversRequest`,
  `ObjectPaging.StartBelowPrefixHidesAll`), and so does a key marker below the prefix
  in a listing of uploads (`UploadListing.MarkerBelowPrefix`,
  `UploadListing.MarkerBelowPrefixHidesAll`).
* With a delimiter, a page of versions that ends inside a common prefix makes the next
  page show the prefix again (`VersionPaging.ChainCompleteForAllPageSizes`,
  `VersionPaging.PrefixComesTwice`). The comment in the source only warns about
  entries being lost.
* A key marker that names no listed entry yields an empty page that claims to be the
  last (`VersionPaging.UnknownMarkersEndTheListing`,
  `VersionPaging.UnknownMarkerHidesAll`).
* The first versioned write to an unversioned object loses that object for good, and
  so does a write that reuses the id "null" with the version it replaces
  (`VersionStack.DeleteUndoesPut`, `Versioning.DeleteKeepsVersions`,
  `VersionStack.UnversionedIsLost`, `VersionStack.ReplacedNullIsLost`,
  `Versioning.FirstMarkerLosesObject`).
* After a seek that does not go to a block boundary, a relative seek starts ahead of
  the true position (`CtrReadSeeker.CurrentIsRelative`, `CtrReadSeeker.StayingMoves`).
* If two first parts of an upload race, one sent with a customer key and one without,
  both can be accepted; calls that start once the key is on record are checked against
  it (`UploadRace.PartsMayDifferInKey`, `UploadRace.LaterCallsUseTheKey`).
* A lifecycle rule of more than 106751 days overflows the 64-bit duration and can
  delete what is younger (`Lifecycle.CutoffIsDays`, `Lifecycle.SweepTakesFreshObject`).

Assumptions about the surroundings: object keys are not empty and contain no 0x00
byte. They are valid UTF-8: records are JSON, so other keys come back changed in the
record, though not in the database key (`ObjectListing.ScanEndsIff` asks this only of
keys that show as objects, and so covers rolled-up keys with 0xFF). The clock that
stamps versions never shows a time twice; times given to the rate limiter do not go
back. Block cipher, digests and signatures are arbitrary functions passed as
parameters, and decompressing undoes compressing. Random version ids, IVs and the time
are parameters.

## Model

| member | source | states |
|---|---|---|
| Keys.SkipsSubtree | internal/storage/filesystem.go:965-966 | a prefix followed by 0xFF lies above every extension whose next byte is not 0xFF, not above the other extensions, and not above any greater string outside the subtree |
| Keys.PrefixIsConvex | internal/storage/filesystem.go:931-935 | the strings with a given prefix are an interval of cursor order, so leaving the loop at the first key without it misses nothing behind |
| ObjectListing.ListObjects | internal/storage/filesystem.go:859-1001 | on every store on which the cursor loop ends, the method with its skip seeks, prefix set, page limit and early exits returns the first MaxKeys items of the naive filter, roll-up and deduplication from its start key, with IsTruncated exactly when an item is left and the token the greatest item shown |
| ObjectListing.ScanEndsIff | internal/storage/filesystem.go:913-980 | the cursor loop ends if and only if no common prefix among the first MaxKeys items it shows is followed by the byte 0xFF in a live key behind the start |
| ObjectListing.OneKeyTrapsTheScan | internal/storage/filesystem.go:965-967 | a concrete bucket with the one object "a/" + 0xFF on which the loop never ends |
| ObjectListing.ListingExact | internal/storage/filesystem.go:909-982 | the naive listing holds an item exactly when some live latest pointer with the prefix shows as it; version records and delete markers never do |
| ObjectListing.ListingAscends | internal/storage/filesystem.go:909-982 | items come strictly ascending by key or common prefix, so none comes twice |
| ObjectListing.RollUpMeans | internal/storage/filesystem.go:946-951 | a key rolls up if and only if a non-empty delimiter stands somewhere at or behind the end of the prefix, and then to its shortest prefix that ends in such a delimiter |
| ObjectListing.SkipIsExact | internal/storage/filesystem.go:946-968 | where no key has 0xFF behind the common prefix, one skip seek passes exactly the rest of the rolled-up subtree and moves the cursor forward |
| ObjectListing.SkipMovesOn | internal/storage/filesystem.go:965-967 | the skip seek moves past a rolled-up key if and only if the byte behind its common prefix is not 0xFF |
| ObjectPaging.StartAfterExact | internal/storage/filesystem.go:889-929 | the live keys at or behind the seek key are exactly those greater than StartAfter or the token, if and only if that does not end in the delimiter or no live key extends it (other than by 0xFF) |
| ObjectPaging.ScanCoversRequest | internal/storage/filesystem.go:889-935 | the scan comes to exactly the live keys greater than StartAfter, if and only if StartAfter is not a delimiter-ended prefix of a live key and no key between it and Prefix stops the scan, unless nothing is asked for |
| ObjectPaging.PageIsExact | internal/storage/filesystem.go:909-992 | a page shows exactly the live keys and common prefixes that its start lets through, which are all those greater than StartAfter unless StartAfterExact says otherwise; ascending, the smaller of MaxKeys and what there is, and truncated exactly when there is more |
| ObjectPaging.PageHoldsItems | internal/storage/filesystem.go:984-1000 | a page holds exactly the objects and the common prefixes among its items, each ascending, with their number as its count, and when truncated the greatest of all of them as its token |
| ObjectPaging.StartBelowPrefix | internal/storage/filesystem.go:931-935 | a page shows what it should if and only if no latest pointer between its start and the prefix stops the scan, or there is nothing to show |
| ObjectPaging.StartBelowPrefixHidesAll | internal/storage/filesystem.go:931-935 | a concrete bucket where StartAfter "0" with prefix "b" hides the object "b" |
| ObjectPaging.PathsAscend | internal/storage/filesystem.go:957-988 | common prefixes are collected in strictly ascending order, so sorting them changes nothing |
| ObjectPaging.TokenMovesOn | internal/storage/filesystem.go:889-899 | the page behind a token starts strictly further on and is not stopped early, so every chain of pages ends |
| ObjectPaging.ResumeExact | internal/storage/filesystem.go:889-899 | the page behind a token continues the listing right where the page before ended if and only if the token is not an object key ending in the delimiter with a live extension |
| ObjectPaging.ChainExact | internal/storage/filesystem.go:872-1011 | the pages of a chain hold at most the items of the listing, and exactly those, once and in order, if and only if no page ends on such an object; for chains without 0xFF behind a common prefix from their start on |
| ObjectPaging.ChainCompleteForAllPageSizes | internal/storage/filesystem.go:872-1011 | the chain is complete for every MaxKeys if and only if no listed object key ending in the delimiter has a live extension |
| ObjectPaging.PlainListingsAreComplete | internal/storage/filesystem.go:872-1011 | without a delimiter, or when no live key that is not rolled up ends in it, every chain lists everything exactly once |
| RunListing.RunsListTheirObjects | internal/storage/filesystem.go:859-1011 | after any run of puts and deletes without 0xFF behind a common prefix, every page ends and the listing shows each key with the prefix whose current version is no delete marker as itself if no delimiter stands behind the prefix, else under its shortest prefix that ends in one, once and in order and nothing else; following tokens yields exactly that for every MaxKeys if and only if no listed key ending in the delimiter has a listed extension |
| RunListing.FolderObjectHidesItsContents | internal/storage/filesystem.go:889-899 | a concrete run in a versioned bucket, "a/x" and then "a/", whose chain of one-item pages misses an object |
| RunListing.StartAfterHidesFolder | internal/storage/filesystem.go:889-893 | a concrete run, put "a/x", where StartAfter "a/" with delimiter "/" hides that object |
| VersionHistory.MetadataStore.PutObjectMeta | internal/storage/metadata.go:821-868 | the transaction (demote the old current record, write the new one or clear the history, move the pointer) equals the specification function on the bucket's records |
| VersionHistory.MetadataStore.DeleteVersionRecords | internal/storage/metadata.go:872-887 | collecting keys under the history prefix and deleting them one by one leaves exactly the records without that prefix |
| VersionHistory.MetadataStore.DeleteObjectMeta | internal/storage/metadata.go:919-974 | deleting one version with promotion of the next newest, or all of them, equals the specification function |
| VersionHistory.MetadataStore.FindNextNewestVersion | internal/storage/metadata.go:976-993 | the scan returns the specification's newest remaining record, the first one on a tie |
| VersionHistory.NewestIsNewest | internal/storage/metadata.go:976-993 | that record belongs to the key's history, is not the deleted version and no other such record is newer; there is none only if no such record exists |
| VersionStack.PutRefines | internal/storage/metadata.go:821-868 | a put on records that spell out a stack leaves records that spell out the pushed stack: pointer is the newest version, exactly its record has IsLatest, an unversioned key has no history |
| VersionStack.NewestUncovers | internal/storage/metadata.go:976-993 | without its newest version, the search finds the version that was current before |
| VersionStack.DeleteVersionRefines | internal/storage/metadata.go:919-974 | deleting a version does to the records what removing it does to the stack; removing the current one promotes the one below |
| VersionStack.OtherKeyStays | internal/storage/metadata.go:812-819 | a transaction on one key leaves the records of every other key alone, even where one key is a prefix of the other |
| VersionStack.RunRefines | internal/storage/metadata.go:821-993 | over any run of puts and deletes of any keys the records refine the version stacks |
| VersionStack.RunsSpellOutHistories | internal/storage/metadata.go:821-993 | from the empty bucket, any run under a strictly increasing clock leaves records that spell out, key by key, the versions put and not yet deleted |
| VersionStack.DeleteUndoesPut | internal/storage/metadata.go:821-993 | deleting the version just put restores the very same bucket contents if and only if the put replaced neither an unversioned object nor a version of the same id, such as "null" |
| VersionStack.UnversionedIsLost | internal/storage/metadata.go:833-868 | a concrete run: put without version id, put with one, delete that version, and no object is left |
| VersionStack.ReplacedNullIsLost | internal/storage/metadata.go:833-868 | a concrete run: put the same version id twice, as a suspended bucket does with "null", delete it, and no object is left |
| Versioning.WriteThenHead | internal/storage/filesystem.go:613-636 | after a write the object and its version read back as written, and every other version still reads as before but for IsLatest |
| Versioning.EnabledPutAdds | internal/storage/filesystem.go:350-356 | with versioning enabled the object reads under the fresh id of its write, and every version that could be read still reads under its own id |
| Versioning.SuspendedPutReplacesNull | internal/storage/filesystem.go:350-356 | with versioning suspended it reads under "null", and every version with another id still reads |
| Versioning.UnversionedPutReplacesAll | internal/storage/filesystem.go:350-356 | without versioning it is the one object and reads under no version id |
| Versioning.DeleteHides | internal/storage/filesystem.go:639-752 | a delete without version id makes the object unreadable under every versioning status |
| Versioning.DeleteLeaves | internal/storage/filesystem.go:686-718 | a delete without version id records a delete marker under the fresh id when enabled and under "null" when suspended, and leaves no record of the key when unversioned |
| Versioning.NamedDeleteRemovesOne | internal/storage/filesystem.go:660-684 | a delete of a named version makes that one unreadable and no other |
| Versioning.DeleteKeepsVersions | internal/storage/filesystem.go:686-718 | after such a delete in a versioned bucket, every version that could be read is still read under its version id, but for the "null" one in a suspended bucket, if and only if the current object is not an unversioned leftover |
| Versioning.FirstMarkerLosesObject | internal/storage/filesystem.go:686-718 | a concrete run: put in an unversioned bucket, then delete with versioning enabled, and the object reads under no version id |
| Versioning.RunIsListable | internal/storage/filesystem.go:909-992 | the bucket after any run is sorted and its pointers carry their own non-empty keys, which is what the listing theorems ask of it |
| VersionListing.ListObjectVersions | internal/storage/listing.go:51-200 | the nested cursor loops return the first MaxKeys lines of all versions behind the markers, rolled up, split into versions, delete markers and common prefixes, with the markers of the last line shown when more is left |
| VersionPaging.ListingIsExact | internal/storage/listing.go:118-191 | the whole listing shows a version exactly when it is on record for a key with the prefix, keys ascending, newest first within a key, none twice, although it is gathered one key at a time |
| VersionPaging.LinesMean | internal/storage/listing.go:155-189 | an entry without a delimiter behind the prefix has a line of its own, and the first of those that share the shortest prefix ending in one gives the line of that prefix |
| VersionPaging.PageHoldsLines | internal/storage/listing.go:160-199 | a page holds the first MaxKeys lines (1000 if none is given) of what follows the markers, versions and delete markers apart, and the entry of its last line as next markers when there are more |
| VersionPaging.MarkerResumes | internal/storage/listing.go:146-153 | markers that name any listed entry resume right behind it |
| VersionPaging.UnknownMarkersEndTheListing | internal/storage/listing.go:146-153 | a page behind a key marker comes back empty and not truncated if and only if the markers match no entry of the listing but possibly the last |
| VersionPaging.UnknownMarkerHidesAll | internal/storage/listing.go:146-153 | a concrete bucket with three objects that seems empty behind the key marker "a" |
| VersionPaging.ChainExact | internal/storage/listing.go:85-200 | following the markers yields at least all lines, and exactly them, once and in order, if and only if no page ends with a common prefix on it that later entries still roll up to |
| VersionPaging.ChainCompleteForAllPageSizes | internal/storage/listing.go:85-200 | following the markers yields every line exactly once in order for every MaxKeys, if and only if no two listed entries share a common prefix that the last entry does not have |
| VersionPaging.PlainChainIsComplete | internal/storage/listing.go:85-200 | without a delimiter, for every MaxKeys, following the markers lists every version exactly once in order |
| VersionPaging.PrefixesAscend | internal/storage/listing.go:167-198 | the common prefixes of a page are collected in strictly ascending order, so sorting them changes nothing |
| VersionPaging.PrefixComesTwice | internal/storage/listing.go:155-174 | a concrete bucket with "a/x", "a/y" and "b" whose one-line pages under delimiter "/" show "a/" twice |
| StackListing.GroupIsStack | internal/storage/listing.go:125-144 | what the listing gathers, deduplicates and sorts for a key is exactly its version stack, newest first |
| StackListing.RunsListTheirStacks | internal/storage/listing.go:85-200 | after any run of puts and deletes, the pages of a listing without delimiter show each key with exactly the versions put and not yet deleted, newest first, and nothing else |
| UploadListing.ListMultipartUploads | internal/storage/listing.go:214-295 | the cursor loop returns the first uploads behind the markers and says whether there are more |
| UploadListing.ChainListsAllUploads | internal/storage/listing.go:239-287 | following the markers lists every upload with the prefix exactly once in record order, for every page size |
| UploadListing.MarkerBelowPrefix | internal/storage/listing.go:257-266 | a page shows all uploads with the prefix behind its markers, if and only if no upload between the markers and the prefix ends the scan, or there is nothing to show |
| UploadListing.MarkerBelowPrefixHidesAll | internal/storage/listing.go:257-266 | a concrete pair of uploads where the key marker "0" with prefix "b" hides the upload to "b" |
| LockMap.MutualExclusion | internal/storage/metadata.go:95-126 | in every interleaving a writer is alone with its name, all contenders of a name share one lock, its count is their number, and the map holds exactly the contended names |
| LockMap.RefinesLockTable | internal/storage/multipart.go:599-622 | made-on-demand counted locks behave like one permanent read-write lock per name: only taking and releasing change who holds it, and a holder is let in only when nobody conflicts |
| LockMap.WaitsOnlyForHolders | internal/storage/multipart.go:599-622 | a waiting user can be let in if and only if nobody holds the name in a conflicting mode; unlocking and counting out never wait |
| LockMap.LocksWhatWasAsked | internal/storage/multipart.go:599-622 | a user comes to wait for, hold and leave the very name and mode that it asked for, and no step moves another user |
| HandleCache.HandlesAreSafe | internal/storage/metadata.go:193-391 | in every interleaving of acquire, release, evict and remove: a handle in use is open, none is closed twice, a mapped one is open and not evicted, an unmapped one is closed exactly when nobody uses it, and the count is the number of users |
| HandleCache.ReleaseClosesLast | internal/storage/metadata.go:193-201 | a release closes the database if and only if the handle has left the cache and the caller was its last user |
| HandleCache.OnlyIdleHandlesClose | internal/storage/metadata.go:207-232 | no other step closes a handle that somebody uses, and one that closes a handle takes it out of the cache |
| HandleCache.HandleOfTheBucket | internal/storage/metadata.go:279-391 | a goroutine comes out of an acquisition with a handle of the bucket it asked for, whatever others do in between |
| HandleCache.LeastRecentlyUsedGoes | internal/storage/metadata.go:207-232 | inserting closes and unmaps a handle only from 100 handles on, one that nobody uses and that no unused one was used before; it lets none go only below 100 or when all are in use |
| HandleCache.HandingOutStamps | internal/storage/metadata.go:279-369 | a handle is stamped when it is handed out and at no other time |
| HandleCache.RemoveUnmaps | internal/storage/metadata.go:376-391 | removing a bucket takes its handle out of the cache, and closes it at once if and only if nobody uses it |
| HandleCache.RaceIsImpossible | internal/storage/metadata.go:324-365 | the branch for another goroutine having won the race is never enabled, because the init lock is exclusive |
| HandleCache.InitLocksComeAndGo | internal/storage/metadata.go:300-322 | a bucket has an init lock exactly while somebody initialises it |
| HandleCache.CacheIsBounded | internal/storage/metadata.go:207-232 | the cache never holds more than 100 handles or, if greater, the most cached handles in use at one time of the run |
| HandleCache.FindVictim | internal/storage/metadata.go:207-232 | the loop over the map, in any order, finds nobody below the cap or when all are in use, else an idle handle other than the one kept that no idle handle was used before |
| UploadRace.UpdateParts | internal/storage/multipart.go:240-251 | the loop over the parts with its early exit replaces the entry of that number or appends |
| UploadRace.WithPartMeans | internal/storage/multipart.go:240-251 | afterwards part numbers are still unique, the new entry is there and every other number's entry is as before |
| UploadRace.PartsArePaired | internal/storage/multipart.go:100-259 | in every interleaving of UploadPart calls part numbers stay unique, every call that succeeded has its part recorded, and a part whose lock is free has file, ETag and size from one and the same successful call or has neither |
| UploadRace.StepLosesNoPart | internal/storage/multipart.go:232-253 | a step changes the entry of a number only by storing the result of a call for that number |
| UploadRace.NoPartIsLost | internal/storage/multipart.go:100-259 | a part once recorded stays recorded over every continuation |
| UploadRace.OneKeyPerUpload | internal/storage/multipart.go:100-136 | in every interleaving the customer key of an upload, once set, stays; every call that succeeded with a key has that key; a call is refused exactly if its key differs from what it found on record |
| UploadRace.LaterCallsUseTheKey | internal/storage/multipart.go:100-136 | a call that starts when the key is on record succeeds only with that key |
| UploadRace.PartsMayDifferInKey | internal/storage/multipart.go:100-136 | any two first calls, one without and one with a key, have an interleaving in which both succeed, so that a part in the keyed upload is not encrypted under its key |
| PutRace.VersionsArePaired | internal/storage/filesystem.go:485-523 | in every interleaving of PutObject calls for one key, when the key's lock is free each version's ETag and size come from the call whose bytes are in its file |
| PutRace.PutsArriveInOrder | internal/storage/filesystem.go:485-523 | concurrent puts reach the metadata newer than every version they find, which is what the version stack asks of a put |
| PutRace.LatestPutIsCurrent | internal/storage/filesystem.go:485-523 | in every interleaving, once a put has succeeded the current version is that of the successful put with the latest time |
| Dispatcher.RunsAreSafe | internal/storage/sync.go:43-137 | in every interleaving the wait group counts the live goroutines and announced retries, no task is attempted more than 4 times, there are 10 workers from the first send on, and sends are accepted only while the queue is open |
| Dispatcher.DeliveriesAreFinal | internal/storage/sync.go:63-86 | over every run no attempt at a task follows one that worked, and an accepted task that is neither queued nor with a goroutine was last tried with success, or tried 4 times, or failed and then met the flag |
| Dispatcher.QueueIsInOrder | internal/storage/sync.go:106-137 | over every run the tasks leave the queue in the order in which they were accepted; one is accepted unless the flag is set or 5000 wait |
| Dispatcher.StopDrains | internal/storage/sync.go:89-103 | when the first Stop has returned the queue is empty, no worker, attempt or scheduled retry is left, and every accepted task was attempted 1 to 4 times |
| Dispatcher.ShutdownIsNeverStuck | internal/storage/webhook.go:69-83 | while Stop waits, some goroutine can take a step |
| Dispatcher.ShutdownIsBounded | internal/storage/webhook.go:131-167 | after the flag is set only a bounded number of such steps is left, so Stop returns |
| Counter.AddCtr | internal/storage/filesystem.go:1224-1230 | the in-place loop equals the specification with its 64-bit wrap-around |
| Counter.AddToIsSum | internal/storage/filesystem.go:1224-1230 | it adds to the big-endian counter modulo 256 to its length if and only if the first step stays within 64 bits or the counter has at most 8 bytes |
| Counter.PadShifts | internal/storage/filesystem.go:1196-1210 | a key stream started some blocks on is the original key stream from there (NIST SP 800-38A section 6.5 and appendix B.1) |
| Counter.XorMeans | internal/storage/filesystem.go:1161-1171 | each bit of a byte combined with the key stream is set exactly where the two differ |
| CtrReadSeeker.Reader.Read | internal/storage/filesystem.go:1161-1171 | a read returns what is left up to the buffer's length, the very bytes of sequential decryption at the position, and keeps file and key stream in step |
| CtrReadSeeker.Reader.Seek | internal/storage/filesystem.go:1173-1222 | the errors, exactly when they occur; on success the position is the offset from the start, from the recorded offset, or from the length of the content, as whence says; in all cases the file position minus 16 stays the key stream position, with offsets and sums in 64-bit arithmetic |
| CtrReadSeeker.CurrentIsRelative | internal/storage/filesystem.go:1161-1222 | seeking from any whence, reading some bytes and seeking relative to the current position arrives the given offset behind where the reader stood if and only if the first seek went to a block boundary; otherwise it is ahead by the remainder |
| CtrReadSeeker.StayingMoves | internal/storage/filesystem.go:1173-1222 | a concrete reader: seeking to 5 and then by 0 arrives at 10 |
| CtrReadSeeker.PlainMeans | internal/storage/filesystem.go:1161-1210 | a plain byte is the stored byte combined with the cipher output for the one counter that spells the number of the IV plus that of whole blocks before it, modulo 256 to the 16 |
| CtrReadSeeker.EndIsLength | internal/storage/filesystem.go:1180-1189 | seeking to the end arrives at the length of the content, from where nothing is left to read |
| CtrReadSeeker.EndOfFive | internal/storage/filesystem.go:1180-1189 | a concrete reader of an IV and five bytes arrives at 5, and one before the end at 4 |
| Assembly.PutObject | internal/storage/filesystem.go:402-523 | a put succeeds if and only if the data is within the limit and has the declared length, if one is declared, with the fault of each other case; the ETag is the digest of the plain data, the size its length, and the file holds the data, compressed or not, behind a fresh IV and byte by byte combined with the key stream if there is a key |
| Assembly.OpenedSealed | internal/storage/filesystem.go:559-600 | opening a stored file gives back the data, for all mixes of encryption and compression |
| Assembly.PutThenGet | internal/storage/filesystem.go:535-610 | what was put is got back by whoever presents the key, with its size on record; with another digest or a missing or superfluous key nothing is |
| Assembly.ReadingNeedsTheKey | internal/storage/filesystem.go:1093-1114 | an object with a key digest on record is read only by who presents it, one without only by who presents none, with the error of each case |
| Assembly.SeekableReadsAreTheObject | internal/storage/filesystem.go:572-589 | reading an encrypted object at any position gives the bytes that were put |
| Assembly.Bucket.CompleteMultipartUpload | internal/storage/multipart.go:270-555 | the order of its checks and errors, the copied contents, the total size and the ETag, as specified; on success the object is on record under the fresh id, "null" or no id, as the bucket is enabled, suspended or unversioned, and the upload with its part files is gone; on failure nothing has changed |
| Assembly.CompletesIff | internal/storage/multipart.go:278-346 | an upload is completed if and only if the key fits and the request names at least one part, none twice, each uploaded under an ETag that is the same but for quotes around it, and of at least 5 MiB unless last or unchecked |
| Assembly.CompleteFaults | internal/storage/multipart.go:278-346 | which fault is answered: first the customer key, then a part named twice, then no part at all, then the first part in ascending number that was not uploaded under its ETag or is too small |
| Assembly.SameTagIsTrimmed | internal/storage/multipart.go:331-335 | ETags match if and only if both are the same text but for quotes around it |
| Assembly.CompletedETag | internal/storage/multipart.go:506-524 | the ETag is the digest of the digests that the ETags of the parts spell, in ascending part number, with the number of parts; only if none spells one, the digest of the data |
| Assembly.CompleteThenGet | internal/storage/multipart.go:404-543 | reading a completed object gives the plain bytes of the chosen parts in strictly ascending part number, with their total size on record, for all mixes of encryption and compression although every part has its own IV |
| ChunkedPayload.DecodeStreamingPayload | internal/auth/signature.go:613-746 | the loop returns what the specification decodes, in a temporary file exactly when it is longer than 2097152 bytes, with the same bytes either way |
| ChunkedPayload.AcceptedIffStream | internal/auth/signature.go:661-717 | a body is accepted with a payload if and only if it starts with chunks carrying it, each announcing its length in hexadecimal and signed on the one before from the seed, the last one and no other empty, and the payload is within the limit |
| ChunkedPayload.SizeMeans | internal/auth/signature.go:674-678 | a size is read as a number if and only if it spells it in hexadecimal digits of either case, with leading zeros and a plus sign at will, below 2 to the 63; a minus sign only before zero |
| ChunkedPayload.WireFormat | internal/auth/signature.go:609-613 | the bytes of a chunk on the wire |
| ChunkedPayload.EncodedDecodes | internal/auth/signature.go:613-746 | any payload cut into non-empty chunks, with sizes in hexadecimal digits of either case and correctly signed, decodes to itself exactly if it is within the limit |
| CanonicalQuery.AwsPercentEncode | internal/auth/signature.go:403-414 | the loop equals the byte-wise encoding |
| CanonicalQuery.EncodeIsReadable | internal/auth/signature.go:403-414 | decoding undoes it, and it never yields '=' or '&' (RFC 3986 sections 2.1 and 2.3) |
| CanonicalQuery.EncodeMeans | internal/auth/signature.go:403-414 | a byte stands for itself exactly if it is a letter, a digit or one of "-_.~", and is else '%' and two upper-case hexadecimal digits |
| CanonicalQuery.GetCanonicalQueryString | internal/auth/signature.go:422-443 | the string is the join of exactly the query's pairs, each as often as there, in ascending order of name and value |
| CanonicalQuery.CanonicalDetermines | internal/auth/signature.go:422-443 | two queries have the same canonical string if and only if every name has the same values, each as often |
| CanonicalQuery.ExampleQuery | internal/auth/signature.go:422-443 | the string of a concrete query with three pairs and an escaped value |
| RateLimiter.Limiter.Allow | internal/console/console.go:71-119 | both sweeps and the token bucket equal the specification; a limit of -1 always admits |
| RateLimiter.Limiter.Sweep | internal/console/console.go:83-98 | the deleting loop, in any order of the map, keeps exactly the clients that are not stale |
| RateLimiter.BucketIsSteady | internal/console/console.go:57-69 | a positive limit per minute is the size of the bucket and gives a steady inflow that fills it in a minute |
| RateLimiter.AdmittedIff | internal/console/console.go:100-119 | a request is admitted if and only if its client is new or its refilled bucket holds a token |
| RateLimiter.AdmissionTakesOne | internal/console/console.go:105-119 | an admitted request takes one token of the refilled bucket, which holds at most the burst, and touches no other client |
| RateLimiter.RefusalsAreFree | internal/console/console.go:105-119 | a refused request costs nothing: every later request of its client is decided as if it had not been made |
| RateLimiter.NewClientHasBurst | internal/console/console.go:100-119 | of the requests of a new client at one time exactly the first are admitted, as many as the burst allows |
| RateLimiter.SweptMeans | internal/console/console.go:83-98 | once a minute clients not seen for ten minutes are forgotten, and those not seen for one minute when a new client finds 10000 others |
| RateLimiter.SweepsAreUnobservable | internal/console/console.go:71-119 | for requests in order of time both sweeps leave every decision as a limiter that forgets nothing would make it |
| RateLimiter.WindowBound | internal/console/console.go:71-119 | in any window, whatever came before and whoever else calls, one client is admitted at most burst plus the window's inflow times |
| Lifecycle.CleanExpiredObjects | internal/storage/lifecycle.go:99-245 | for every bucket, the loops over rules, records and expiry lists with their batch caps, all three parts of a rule, equal the specification of what is left of the object records and of the uploads |
| Lifecycle.CutoffIsDays | internal/storage/lifecycle.go:118-133 | what counts as expired is exactly what has the prefix and is older than the number of days, if and only if that number is at most 106751; otherwise something younger is |
| Lifecycle.PurgeKeepsCurrent | internal/storage/lifecycle.go:169-200 | noncurrent expiration leaves the current version of every key in place |
| Lifecycle.SweepRemovesOnlyExpired | internal/storage/lifecycle.go:105-200 | whatever the versioning status and the rules, every version that a sweep removes is past the cutoff of an enabled rule that matches its key |
| Lifecycle.SweepSparesTheYoung | internal/storage/lifecycle.go:105-200 | with numbers of days up to 106751, every version that a sweep removes is older than the days of an enabled rule that matches its key |
| Lifecycle.SweepTakesFreshObject | internal/storage/lifecycle.go:116-166 | a concrete sweep under a rule of 106752 days that deletes an object put a nanosecond before |
| Lifecycle.RuleAbortsOld | internal/storage/lifecycle.go:203-241 | a rule aborts no upload that is not past its cutoff, at most 10000, and all that are past it if there are fewer |
| Lifecycle.SweepAbortsOnlyOld | internal/storage/lifecycle.go:203-241 | every upload that a sweep aborts is past the cutoff of an enabled rule that matches its key |
| Lifecycle.OverdueUploadsGo | internal/storage/lifecycle.go:203-241 | after a sweep no upload is in progress that is older than the days (up to 106751) of some enabled rule with its prefix, if what that rule found was fewer than 10000 |
| LifecycleBatches.RuleTakesAllThatFit | internal/storage/lifecycle.go:116-200 | if what has expired fits in a batch, the same search after the rule finds no current version but delete markers, the delete markers that stood alone are gone, and no noncurrent version is found any more |
| LifecycleBatches.BatchesAreBounded | internal/storage/lifecycle.go:128-131 | a search finds at most 10000 |
| LifecycleBatches.OverdueObjectsGo | internal/storage/lifecycle.go:105-166 | after a sweep no object can be read that was older than the days (up to 106751) of some enabled rule with its prefix, if what that rule found was fewer than 10000 |
| LifecycleBatches.OverdueVersionsGo | internal/storage/lifecycle.go:169-200 | if the noncurrent versions that an enabled rule finds are fewer than 10000, none with the prefix that is older than its noncurrent days (up to 106751) is left behind it |
| Migration.Databases.CopyTable | internal/storage/metadata.go:413-450 | copying goes on past rows that fail: it writes some rows and nothing else, reports a failure exactly when a row could not be written, and has written all rows otherwise |
| Migration.Databases.MigrateIfNecessary | internal/storage/metadata.go:393-506 | a run either finishes, exactly when every row can be written and the process lives long enough, and leaves the migrated state; or it leaves the old tables whole with some of their records copied |
| Migration.MigratedMeans | internal/storage/metadata.go:413-489 | a finished run puts every record with a bucket to go to into that bucket's own database unchanged, and changes nothing else there |
| Migration.RowsComeHome | internal/storage/metadata.go:416-481 | after a finished run every row of either table whose key starts with a bucket and 0x00 is in the database of that bucket under its key with its value, and so is an upload whose key has no 0x00 in the database named by its whole key |
| Migration.OnlyRowsCome | internal/storage/metadata.go:416-481 | whatever a finished run adds or changes anywhere is such a row |
| Migration.OwnBucket | internal/storage/metadata.go:812-818 | pointer, version and upload keys made for a bucket go to the database of that very bucket |
| Migration.RerunsConverge | internal/storage/metadata.go:393-506 | after any number of runs that failed or died anywhere, a run that gets through leaves the very state one undisturbed run would have left |
| Migration.SurvivesIffMoved | internal/storage/metadata.go:416-421 | a record is at all times in the old table or in its bucket's database if and only if it is an upload or has a separator, which by OwnBucket every key that the store makes has |

## Left out

- ObjectListing.ListObjects: asks for a store on which the loop ends (ObjectListing.ScanEndsIff); bucket existence, bucket names and record decoding errors are not modelled.
- ObjectPaging.ChainExact: asks for a store without 0xFF behind a rolled-up prefix from the start of the chain on, on which every page ends (ObjectPaging.PagesEnd).
- VersionStack.RunRefines: asks for strictly increasing times and keys without 0x00; records written around the transactions by `PutObjectMetaRaw` are not modelled.
- Versioning.RunIsListable: takes records to carry their keys unchanged, which JSON does for keys that are valid UTF-8.
- VersionListing.ListObjectVersions: record decoding errors are not modelled.
- VersionPaging.ChainExact: asks that an entry without version id is the newest of its key, which StackListing.HistoriesArePageable proves of every history.
- UploadRace.PartsArePaired: says nothing about a call that races completing or aborting the upload, which hold no part lock, or about disk errors between rename and record.
- PutRace.VersionsArePaired: says nothing about deletes that race a put, nor about completing a multipart upload to the same key, which renames and records as a put does but takes the upload's lock and not the key's.
- HandleCache.HandlesAreSafe: closing the whole store while requests run is not modelled; each acquired handle is released once.
- Dispatcher.RunsAreSafe: the delays of retries are not modelled; a scheduled retry may run at any later time.
- Dispatcher.StopDrains: is about the first call of Stop; a second call returns at once whatever is still running.
- CtrReadSeeker.Reader.Read: reads of a regular file return all there is up to the buffer's length; disk errors are not modelled.
- ChunkedPayload.DecodeStreamingPayload: reading errors other than the end of the body, the memory a single huge chunk needs and temporary file errors are not modelled.
- Assembly.Bucket.CompleteMultipartUpload: paths, path conflicts and disk errors other than unreadable parts are not modelled.
- RateLimiter.WindowBound: takes tokens as real numbers, not as rounded floating-point ones.
- Lifecycle.SweepRemovesOnlyExpired: takes one sweep on its own, without requests in between.
- Lifecycle.CleanExpiredObjects: the part files of aborted uploads are not modelled, only their records.
- Migration.RerunsConverge: nothing else writes between the runs, because the store does not open before its migration is through.
- Bucket-info and object-count caches, CORS, logging configuration, access logs and metrics.
- HTTP handlers, XML and JSON, TLS, sessions of the console, request signing and presigned URLs beyond the canonical query string.
- Path cleaning and containment checks, cleaning up parent directories and orphaned temporary files.
