# RustNfsSvc, verified

A Dafny model of the state machines and byte codecs inside RustNfsSvc, a server for NFSv3, NFSv4.1
and NFSv4.2, with proofs about them. Check everything with `dafny verify dfyconfig.toml`.

Code that updates state in place is a class or a method with loops, proved against a
specification function; what the server promises is then proved about that function, over every
input or every run.

| file | component |
|---|---|
| `Wire.dfy` | bytes, 32- and 64-bit words, big-endian encoding, bitwise operators, XDR padding |
| `RecordStream.dfy` | reassembly of records from TCP reads, dispatch, framing of replies |
| `Fattr.dfy`, `FattrDecode.dfy` | the encoder of file attributes, and a client that decodes them |
| `AttrVerify.dfy` | VERIFY and NVERIFY: the second walk over attributes |
| `Readdir.dfy`, `ReaddirConversation.dfy` | one page of a directory, and the whole conversation |
| `LockTable.dfy` | byte-range locks |
| `PathHash.dfy`, `PathSearch.dfy` | inode numbers, and the search for a path by inode |
| `FileHandles.dfy`, `HandleRaces.dfy` | the file-handle table, call by call and interleaved |
| `FileRanges.dfy` | READ, READ_PLUS, WRITE, COPY, CLONE and their NFSv3 counterparts |
| `Compound.dfy` | the COMPOUND interpreter |
| `Clients.dfy`, `ClientRuns.dfy`, `ClientRaces.dfy` | clients, sessions and leases: the operations, every run, interleaved requests |
| `RateLimit.dfy`, `ConnCount.dfy` | admission of connections |

## What the proofs found

Each of these is proved, with the exact condition where there is one.

- A record shorter than 20 bytes loses only its header; its body is read again as headers, so a
  legal short record can close the connection (`ShortRecordSkipped`, `ShortRecordCanClose`).
- Attribute 46 is sent as 8 bytes of freed space; RFC 5661 gives that number to a boolean. A client
  that follows the RFC can decode a reply exactly when it did not ask for it
  (`SystemAttributeBreaksDecoding`).
- GETATTR drops the sub-seconds of attributes 52 and 53, VERIFY compares them
  (`VerifyOfGetattr`).
- A READDIR conversation ends exactly when every entry fits a page of its own (`ConversationEnds`);
  otherwise empty pages without eof come for ever (`EmptyPagesForever`), where RFC 5661 wants
  NFS4ERR_TOOSMALL. An empty page is 16
  bytes even under a smaller maxcount, and the listing of the pseudo root ignores maxcount.
- Byte 2^64-1 of a file is not protected by locks (`ProtectedBytes`), and locks of one owner
  conflict with each other like those of any two.
- The handle counter wraps, and PUTFH lets a handle nobody signed move it to its limit: three new
  paths later an issued handle verifies and names another file (`WrappedCounterReissues`). Up to
  the first wrap, and exactly until then, the table keeps all it promises (`TableAgreement`).
- `try_rebuild_fh` can enter the number of a handle that is just being made, or take it over
  (`RestartRace`).
- A SETCLIENTID with the empty id string and the zero verifier is answered with an EXCHANGE_ID
  client's id; nothing else gives one id to two clients (`BorrowsIffEmptyAndZero`, `AnswersIdentify`).
- COMPOUND drops the body of a failed operation, so the LOCK4denied that LOCK builds never reaches
  the client, and a truncated request gets an uncounted OP_ILLEGAL pair (`ReplyDecodes`).
- A lapsed SETCLIENTID client takes with it the EXCHANGE_ID mapping of an owner with the same
  bytes, even of a live one (`SameOwnerSameId`, `OwnerLosesId`); two overlapping requests of one
  owner get two ids (`TwoIdsForOneOwner`).
- The rate limiter's cleanup never removes an entry (`CleanupRemovesNothing`).

## Model

| member | source | states |
|---|---|---|
| Wire.PaddingIdiom | src/nfs/nfs4.rs:842-851 | `(n + 3) & !3` on words is the next multiple of 4, by which every opaque is padded in the model |
| Wire.Be32Bytes | src/nfs/nfs4.rs:541 | a word is encoded most significant byte first |
| Wire.Be64Words | src/exports.rs:449-450 | and 64 bits as their high and their low word |
| Wire.BitOfXor | src/exports.rs:487-488 | the xor of the hash, bit by bit |
| RecordStream.HandleNfsStream | src/nfs/mod.rs:454-575 | the nested receive loops dispatch, answer and close like one decode of the concatenated reads, for every way of cutting the stream; the replies are the answers of the servers the records are for; the buffer limit never fires |
| RecordStream.DrainResumes | src/nfs/mod.rs:468-551 | decoding a longer stream continues from where decoding its beginning stopped |
| RecordStream.LeftoverBound | src/nfs/mod.rs:466-496 | what waits for more data is at most MAX_RECORD_LENGTH + 3 bytes |
| RecordStream.HeaderDecides | src/nfs/mod.rs:468-499 | what the first four bytes decide: close, skip, wait, or dispatch exactly the bytes of a record of 20 bytes to 1 MB |
| RecordStream.RoutedByBytes | src/nfs/mod.rs:507-534 | version 4 of program 100003 is answered by the v4 server, version 3 by the v3 server, program 100227 with an error that carries the xid, all else not at all |
| RecordStream.RepliesAreAnswers | src/nfs/mod.rs:507-551 | the replies on a connection are the answers to the dispatched records in order, up to one that could not be written |
| RecordStream.FeedIsDrain | src/nfs/mod.rs:464-575 | feeding a decoder read by read equals decoding everything at once |
| RecordStream.ReadBoundariesInvisible | src/nfs/mod.rs:464-575 | two ways of cutting one stream lead to the same connection and verdict |
| RecordStream.MarkerLength | src/nfs/mod.rs:537-542 | the reply marker always says last fragment, and carries the true length if and only if it is below 2^31 |
| RecordStream.FramesDecode | src/nfs/mod.rs:537-542 | framed records of legal size are decoded unchanged, in order, and decoding goes on with what follows |
| RecordStream.DispatchAllKeepsRecords | src/nfs/mod.rs:498-550 | exactly the given records are dispatched, up to the first failed write |
| RecordStream.ShortRecordBodyIsReread | src/nfs/mod.rs:480-484 | a record under 20 bytes is decoded as if only its body had been sent |
| RecordStream.ShortRecordSkipped | src/nfs/mod.rs:480-484 | it is skipped, whatever follows, if and only if its body is itself a run of short headers |
| RecordStream.ShortRecordCanClose | src/nfs/mod.rs:475-484 | a framed 4-byte record of zeros closes the connection |
| Fattr.BuildFattr4 | src/nfs/nfs4.rs:3257-3598 | the bit-by-bit encoder yields the returned bitmap and the values of its attributes in ascending order |
| Fattr.AppendBasic | src/nfs/nfs4.rs:3317-3335 | the encoding holds attributes 0 to 2 exactly where the bitmap names them |
| Fattr.AppendContents | src/nfs/nfs4.rs:3337-3351 | the encoding goes on with change and size |
| Fattr.AppendFlags | src/nfs/nfs4.rs:3353-3383 | the encoding goes on with attributes 5 to 12 |
| Fattr.AppendIdentity | src/nfs/nfs4.rs:3384-3441 | the encoding goes on with attributes 13 to 31, of which only fileid is ever provided |
| Fattr.AppendOwner | src/nfs/nfs4.rs:3443-3474 | the encoding goes on with mode, links and owners |
| Fattr.AppendUsage | src/nfs/nfs4.rs:3476-3506 | the encoding goes on with device and space |
| Fattr.AppendTimes | src/nfs/nfs4.rs:3508-3548 | the encoding goes on with the three times, two of them without sub-seconds |
| Fattr.AppendMountedOn | src/nfs/nfs4.rs:3550-3574 | the encoding ends with mounted_on_fileid |
| Fattr.ReturnedBitmap | src/nfs/nfs4.rs:3264-3309 | an attribute is in the returned bitmap if and only if it was requested and is supported |
| Fattr.ValuesAligned | src/nfs/nfs4.rs:3576-3596 | the values fill whole 4-byte units for every object and bitmap |
| Fattr.ChangeTellsApart | src/nfs/nfs4.rs:3337-3345 | attribute 3 is the same for two modification stamps if and only if they are a multiple of 2^64 ns apart |
| Fattr.ChangeIsStamp | src/nfs/nfs4.rs:3337-3345 | for stamps that 64 bits hold: the same if and only if the stamp is, and later for the later stamp |
| Fattr.FixedWords | src/nfs/nfs4.rs:3332-3453 | the values of one word that do not depend on the object |
| Fattr.FixedAttributes | src/nfs/nfs4.rs:3368-3506 | fsid, owners, device and freed space |
| Fattr.ReportedAttributes | src/nfs/nfs4.rs:3324-3548 | type, size, mode and times of an object with metadata |
| Fattr.UnreportedAttributes | src/nfs/nfs4.rs:3324-3548 | and of one without |
| Fattr.SpaceUsedIsBlocks | src/nfs/nfs4.rs:3492-3499 | space used is the least multiple of 512 that holds the size |
| Fattr.FileIds | src/nfs/nfs4.rs:3402-3441 | fileid and mounted_on_fileid are one number, 2 for the root and the path's hash otherwise |
| Fattr.SupportedAttrs | src/nfs/nfs4.rs:3276-3322 | attribute 0 names exactly the attributes that can be returned |
| Fattr.RequestedBits | src/nfs/nfs4.rs:3264-3265 | bitmaps of any length: missing words ask for nothing, further words are ignored |
| FattrDecode.DecodeValInverts | src/nfs/nfs4.rs:3314-3574 | every attribute value is recovered from its encoding, and nothing after it is consumed |
| FattrDecode.DecodeAttrsInverts | src/nfs/nfs4.rs:3314-3574 | walking the bitmap upwards recovers all values from any attribute on |
| FattrDecode.Fattr4RoundTrip | src/nfs/nfs4.rs:3257-3598 | for every requested bitmap and object, a decoder consumes the reply exactly and recovers bitmap and values |
| FattrDecode.SystemAttributeBreaksDecoding | src/nfs/nfs4.rs:3501-3506 | a decoder that takes attribute 46 for a boolean gets the same if and only if the request did not name it |
| AttrVerify.CompareAttrVals | src/nfs/nfs4.rs:2188-2286 | the walk gives up exactly at an attribute it cannot compare or a value cut short, and says equal exactly when all values match |
| AttrVerify.OpVerify | src/nfs/nfs4.rs:2123-2184 | from the request bytes: the status of VERIFY and NVERIFY for every handle, bitmap and value list, and the bytes consumed |
| AttrVerify.DifferenceDecides | src/nfs/nfs4.rs:2188-2286 | the first differing value decides, whatever comes after it |
| AttrVerify.GetattrParses | src/nfs/nfs4.rs:2131-2157 | GETATTR's reply, bitmap and all, is read as the argument of VERIFY and consumed exactly |
| AttrVerify.WalkOverGetattr | src/nfs/nfs4.rs:2188-2286 | over GETATTR's bytes the second walk stays in step whatever became of the file, and agrees exactly while the values are still so |
| AttrVerify.WalkOutcome | src/nfs/nfs4.rs:2188-2286 | for every bitmap: it gives up if and only if an attribute that cannot be compared comes before any that changed, and matches if and only if all are comparable and unchanged |
| AttrVerify.VerifyOfGetattr | src/nfs/nfs4.rs:2123-2286 | the case of an unchanged file: exactly when the answers are the same, different, or refused, in terms of the bitmap and the sub-seconds alone |
| AttrVerify.VerifyDetectsChange | src/nfs/nfs4.rs:2123-2286 | GETATTR's exact bytes handed back for any later state of the file, for every bitmap: refused, or else VERIFY OK and NVERIFY SAME if and only if every value sent is what is observed now |
| AttrVerify.StillSoMeans | src/nfs/nfs4.rs:2200-2286 | each comparable value in terms of kind, length and stamps as the filesystem reports them |
| AttrVerify.StillSoMissing | src/nfs/nfs4.rs:2200-2286 | and for a file whose metadata can no longer be read |
| AttrVerify.VerifyOfBasic | src/nfs/nfs4.rs:2123-2286 | for bitmaps within type, change and size, VERIFY with GETATTR's bytes is OK, and NVERIFY SAME, if and only if kind, modification stamp and length are, as far as asked for, unchanged |
| AttrVerify.VerifyOfChange | src/nfs/nfs4.rs:2221-2226 | asked for change alone: OK if and only if the modification stamp is the same to the nanosecond |
| AttrVerify.ArgsRead | src/nfs/nfs4.rs:2131-2157 | a fattr4 argument with a bitmap of any length is read back |
| AttrVerify.VerifyComparesStates | src/nfs/nfs4.rs:2123-2286 | the same for values with full time stamps: the same if and only if no named attribute differs between the two states |
| Readdir.OpReaddir | src/nfs/nfs4.rs:1369-1446 | the page holds the entries, sorted by name, that come after the cookie and fit the budget; eof says that none is left |
| Readdir.OpReaddirRoot | src/nfs/nfs4.rs:1482-1530 | the root's listing holds every export after the cookie |
| Readdir.LessIsLexicographic | src/nfs/nfs4.rs:1377 | names are ordered by their first different byte, a beginning before what it begins |
| Readdir.SortOrders | src/nfs/nfs4.rs:1377 | the sort puts no entry before one of a smaller name |
| Readdir.SortIsStable | src/nfs/nfs4.rs:1377 | the sort keeps entries of one name in their order |
| Readdir.SameListing | src/nfs/nfs4.rs:1373-1377 | two enumerations give one listing, so that cookies keep their meaning, if and only if the entries that share a name come in the same order |
| Readdir.DistinctNamesSameListing | src/nfs/nfs4.rs:1373-1377 | where names are distinct after the lossy conversion, the order of enumeration does not matter |
| ReaddirConversation.PageDecodes | src/nfs/nfs4.rs:1385-1446 | every page decodes to consecutive entries with their cookies, names and attributes |
| ReaddirConversation.PageSays | src/nfs/nfs4.rs:1369-1435 | from the bytes: the verifier, then consecutive entries from the one behind the cookie, with cookies counted from 3, names and attributes, and eof if and only if they reach the end |
| ReaddirConversation.WithinBudget | src/nfs/nfs4.rs:1394-1420 | the entries taken fit, and the next one would not |
| ReaddirConversation.PageSize | src/nfs/nfs4.rs:1394-1446 | a page is within maxcount if and only if maxcount is at least 16, and a page without eof has no room for the next entry |
| ReaddirConversation.NoGapNoRepeat | src/nfs/nfs4.rs:1379-1435 | at every point of every conversation the client holds exactly the first entries, and all of them once told eof |
| ReaddirConversation.ConversationEnds | src/nfs/nfs4.rs:1379-1435 | the conversation ends if and only if each entry fits a page of its own, in at most one request per entry, with exactly the directory |
| ReaddirConversation.EmptyPagesForever | src/nfs/nfs4.rs:1379-1435 | if some entry does not fit, the client holds exactly the entries before the first such one after at most as many requests, and every later page is empty and without eof |
| ReaddirConversation.RootIsUnboundedPage | src/nfs/nfs4.rs:1449-1530 | for every maxcount the root's listing is a READDIR page if and only if it fits maxcount, or the 16 bytes of an empty page |
| ReaddirConversation.RootPageDecodes | src/nfs/nfs4.rs:1449-1530 | it decodes to every later export and says eof |
| LockTable.CheckLockConflict | src/nfs/nfs4.rs:2461-2481 | finds the first held lock in conflict, with saturating range ends |
| LockTable.FirstConflict | src/nfs/nfs4.rs:2461-2481 | none is found if and only if no held lock conflicts; what is found is the first that does |
| LockTable.RangeTestExact | src/nfs/nfs4.rs:2461-2481 | the overlap test is true sharing of a byte below 2^64-1, except for exactly the empty ranges strictly inside another |
| LockTable.ConflictExact | src/nfs/nfs4.rs:2464-2478 | two locks conflict if and only if one is of type 2, 3 or 4 and they share a byte below 2^64-1 or one is empty inside the other |
| LockTable.LockManager.OpLock | src/nfs/nfs4.rs:2514-2558 | LOCK appends the granted lock under the next state id, or names the holder and changes nothing |
| LockTable.LockManager.OpLockt | src/nfs/nfs4.rs:2587-2608 | LOCKT's answer, changing nothing |
| LockTable.LockManager.OpLocku | src/nfs/nfs4.rs:2639-2667 | LOCKU's retain loop removes the matching locks and returns the last one's state id |
| LockTable.LockRecords | src/nfs/nfs4.rs:2514-2558 | a granted lock is recorded as asked for, behind the others, under a state id made of the counter; a denied one changes nothing and names the first in its way |
| LockTable.UnlockRecords | src/nfs/nfs4.rs:2639-2664 | LOCKU keeps exactly the locks it does not describe, in order, and answers with the last one it does |
| LockTable.RunCompatible | src/nfs/nfs4.rs:2514-2654 | in every run the locks of each list are pairwise free of conflict |
| LockTable.LockSafety | src/nfs/nfs4.rs:2461-2551 | in every run every byte below 2^64-1 has at most one lock, or only non-write locks |
| LockTable.ProtectedBytes | src/nfs/nfs4.rs:2461-2481 | every byte position but 2^64-1 is protected, and that one is not |
| LockTable.StateidsDistinct | src/nfs/nfs4.rs:2526-2551 | in every run that does not wrap the counter all held state ids differ |
| LockTable.TestPredictsLock | src/nfs/nfs4.rs:2517-2608 | LOCKT says free if and only if LOCK would be granted, and both name the same holder |
| LockTable.UnlockReleases | src/nfs/nfs4.rs:2639-2664 | LOCKU removes exactly the locks with its range, type and owner, and reports whether there was one |
| LockTable.LockThenUnlock | src/nfs/nfs4.rs:2514-2667 | a granted LOCK is undone by the same LOCKU, which returns its state id, if and only if no equal lock was held; always so for a non-empty write lock below 2^64-1 |
| PathHash.GetInode | src/exports.rs:479-491 | the loop computes the 64-bit FNV-1a hash with wrap-around |
| PathHash.TestVectors | src/exports.rs:485-490 | two published values of the hash |
| PathHash.SiblingsDiffer | src/exports.rs:485-490 | paths that differ in their last byte only have different hashes |
| PathHash.CommonTail | src/exports.rs:485-490 | a common end neither makes nor undoes a collision |
| PathSearch.FindPathByInode | src/exports.rs:647-675 | the recursive search returns the first match in preorder down to the depth limit |
| PathSearch.PreorderReach | src/exports.rs:647-675 | that preorder contains exactly the paths within reach through readable directories |
| PathSearch.FirstMatchExact | src/exports.rs:656-668 | a first match has the hash, and everything before it has not |
| PathSearch.SearchExact | src/exports.rs:647-675 | None if and only if nothing within reach has the hash; a result has it and is within reach |
| PathSearch.FirstRoute | src/exports.rs:647-675 | of all matches within reach the search finds the one that comes first, directories before their contents |
| FileHandles.EncodeHandle | src/exports.rs:437-456 | a handle always has 40 bytes |
| FileHandles.EncodedHandleVerifies | src/exports.rs:437-477 | a fresh handle passes MAC verification and decodes to its id under all three decoders, for every id, MAC function and salt |
| FileHandles.HandleLayout | src/exports.rs:448-455 | number, inode, generation, salt and MAC at their places in 40 bytes |
| FileHandles.ResolveExact | src/exports.rs:460-541 | a handle resolves if and only if its MAC is right, its number is not 0, and the table has the path under it |
| FileHandles.RootProbe | src/exports.rs:460-528 | a handle of zeros is the root probe, and any other needs its MAC |
| FileHandles.CreatedExactly | src/exports.rs:377-414 | the bytes of the handle, and the one entry that is made for a new path |
| FileHandles.SyntheticExactly | src/exports.rs:493-510 | the bytes of a synthetic handle, which is accepted and resolves to nothing |
| FileHandles.SearchExportsExact | src/exports.rs:614-622 | the first export with a path of that inode within 8 levels decides, and there is none if and only if none has one |
| FileHandles.RebuiltExactly | src/exports.rs:593-645 | when something is entered, what, and where the counter goes |
| FileHandles.ExportsManager.GetOrCreateFh | src/exports.rs:377-414 | a known path gets its id again, a new one the next number in both maps; the counter wraps |
| FileHandles.ExportsManager.AllocSyntheticHandle | src/exports.rs:493-510 | takes a number without an entry; the counter wraps |
| FileHandles.ExportsManager.TryRebuildFh | src/exports.rs:593-645 | enters a path found by inode and moves the counter past its id, or changes nothing |
| FileHandles.ExportsManager.LookupFh | src/exports.rs:532-541 | the path a handle is resolved to by the table |
| FileHandles.SearchExportsHash | src/exports.rs:614-623 | the path a handle is rebuilt to has the handle's inode as hash |
| FileHandles.RebuildKeeps | src/exports.rs:593-645 | rebuilding keeps the maps in agreement and overwrites nothing |
| FileHandles.StepKeepsIffNoWrap | src/exports.rs:377-645 | an operation keeps agreement, hashes and all earlier entries if and only if it does not take the last number |
| FileHandles.TableAgreement | src/exports.rs:377-645 | all through a run the two maps agree, ids are below the counter, inodes are hashes, and nothing is removed or overwritten, if and only if no step wraps the counter |
| FileHandles.ModestRunsDoNotWrap | src/exports.rs:393-398 | a run does not wrap if it is shorter than the distance between the ids in the handles it brings and the limit |
| FileHandles.StepNames | src/exports.rs:400-410 | in any table an entry keeps its path if and only if its number is not given to another one |
| FileHandles.IssuedHandle | src/exports.rs:377-541 | an issued handle verifies, and resolves to exactly the path its number has in the table, if that is not 0 |
| FileHandles.HandlePermanence | src/exports.rs:377-541 | from any table: an issued handle names its path in every later state if and only if its number is not 0, has the path to begin with, and is never given to another path |
| FileHandles.PermanentWithoutWrap | src/exports.rs:377-541 | in a run that does not wrap every issued handle names its path for good |
| FileHandles.WrappedCounterReissues | src/exports.rs:393-398 | a run of five calls after which the first issued handle names another path, and one handle was never resolved |
| HandleRaces.RepairAtOnce | src/exports.rs:593-645 | the two locked parts of a rebuild, with nothing in between, are the rebuild |
| HandleRaces.CreateAtOnce | src/exports.rs:377-414 | the locked parts of a call for an unknown path, with nothing in between, are the call |
| HandleRaces.ActKeeps | src/exports.rs:377-414 | each separately locked step keeps agreement and all entries unless it is a racing rebuild or wraps the counter |
| HandleRaces.HealthyIffNoRace | src/exports.rs:377-642 | it keeps them if and only if it is neither; a rebuild races if its number is pending, or in the table with another entry |
| HandleRaces.InterleavedAgreement | src/exports.rs:377-642 | every step of an interleaving keeps agreement and all entries if and only if none races or wraps |
| HandleRaces.ActNames | src/exports.rs:400-641 | in any state an entry keeps its path if and only if the step does not enter another one under its number |
| HandleRaces.EnteredHandlePermanent | src/exports.rs:377-642 | the handle of an interleaved call names its path throughout if and only if no step enters another path under its number; none does where nothing races or wraps |
| HandleRaces.RaceOutcome | src/exports.rs:377-642 | a rebuild before the pending entry: the maps agree if and only if both meant the same path |
| HandleRaces.LateRepairOutcome | src/exports.rs:601-641 | a rebuild of a number entered since its lookup: the maps agree if and only if the path is the same or has been given a newer number |
| HandleRaces.RestartRace | src/exports.rs:593-645 | both races exist, between a handle from before a restart and the first call after it; one breaks agreement, the other takes over an issued handle |
| FileRanges.SliceWholeFile | src/nfs/nfs4.rs:1197-1201 | READ returns exactly the bytes of the range that exist, and eof if and only if it reaches the end |
| FileRanges.SeekAndRead | src/nfs/nfs4.rs:3658-3702 | so does READ_PLUS when the system call delivers all it was asked for |
| FileRanges.Store.OpRead | src/nfs/nfs4.rs:1183-1214 | the status for a missing handle or file, and the bytes otherwise |
| FileRanges.Store.HandleRead | src/nfs/protocol.rs:356-370 | NFSv3 READ returns the same bytes and eof, or an empty end of file |
| FileRanges.ReadUnique | src/nfs/nfs4.rs:1197-1201 | bytes and eof are determined by file, offset and count, so the three reads agree |
| FileRanges.ReadDelivers | src/nfs/nfs4.rs:1197-1201 | a read inside the file continues it, and is full unless it ends at eof |
| FileRanges.ReadPlusAgrees | src/nfs/nfs4.rs:3669-3702 | READ_PLUS equals READ if and only if the system call was not short; its data is always a beginning of READ's |
| FileRanges.ReadsReassemble | src/nfs/nfs4.rs:1197-1201 | consecutive reads of any sizes gather a beginning of the file, and the whole file if and only if the last one says eof |
| FileRanges.ReadsFinish | src/nfs/nfs4.rs:1197-1201 | non-empty reads get through the file in at most as many requests as it has bytes |
| FileRanges.WriteAtBytes | src/nfs/nfs4.rs:1261-1282 | written bytes are in place, all others unchanged, a gap is zero |
| FileRanges.ReadAfterWrite | src/nfs/nfs4.rs:1261-1282 | reading the range just written returns what was written |
| FileRanges.WritesCommute | src/nfs/nfs4.rs:1261-1282 | two writes commute if and only if they agree where they overlap |
| FileRanges.ReadAfterWriteDone | src/nfs/nfs4.rs:1247-1301 | after a successful WRITE, whether the file was there or not, a READ of the range returns what was written |
| FileRanges.Store.OpWrite | src/nfs/nfs4.rs:1253-1301 | OK if and only if the file opens and the offset is below 2^63; then the data is in place in the old or new file, gaps are zero, and all else is as before; a refused open changes nothing |
| FileRanges.Store.HandleWrite | src/nfs/protocol.rs:419-455 | NFSv3 WRITE does the same to the store and reports failure as zero bytes |
| FileRanges.Store.OpCopy | src/nfs/nfs4.rs:3829-3892 | each failure's status and no change; on success the range as it was before is written to the sink, byte for byte |
| FileRanges.Store.OpClone | src/nfs/nfs4.rs:4027-4082 | the same outcome as COPY in every case |
| FileRanges.CopyMovesOldBytes | src/nfs/nfs4.rs:3842-3882 | the sink range gets the bytes the source had before, also onto itself; all else is framed |
| FileRanges.CopyIsReadThenWrite | src/nfs/nfs4.rs:3842-3882 | a copy equals a READ followed by a WRITE of what was read |
| Compound.HandleCompound | src/nfs/nfs4.rs:407-574 | the loop's reply and final server state are those of a recursive run that stops at the first failure, or a refusal of the header |
| Compound.RunLoop | src/nfs/nfs4.rs:471-537 | result bytes, status and count are those of the run |
| Compound.ParseHeader | src/nfs/nfs4.rs:410-457 | an accepted header has a tag of at most 4 MB and at most 64 operations |
| Compound.HeaderRoundTrip | src/nfs/nfs4.rs:410-457 | a client's header is read back, or refused for exactly the tag length, minor version or number of operations |
| Compound.AcceptedHeader | src/nfs/nfs4.rs:410-457 | whatever is accepted is an encoded header within the limits |
| Compound.RunShape | src/nfs/nfs4.rs:471-537 | every counted result but the last is NFS4_OK, and the status is NFS4_OK if and only if all requested operations were attempted and succeeded |
| Compound.TruncatedAtEnd | src/nfs/nfs4.rs:471-479 | a run is truncated only where no opcode is left, with status 10036; any other has its last result's |
| Compound.RunSplits | src/nfs/nfs4.rs:471-537 | a run can be cut after any number of operations, and nothing follows a failure |
| Compound.OperationAt | src/nfs/nfs4.rs:471-537 | the i-th result comes from attempting the opcode found at the cursor the earlier operations left |
| Compound.SavedIsLastSave | src/nfs/nfs4.rs:760-768 | the saved handle is the one current at the last SAVEFH |
| Compound.RestoreReturnsToSave | src/nfs/nfs4.rs:760-778 | RESTOREFH succeeds if and only if a SAVEFH came before it, and restores the handle current at the last one |
| Compound.ReplyDecodes | src/nfs/nfs4.rs:539-574 | a client recovers status, tag and exactly the attempted results, then the uncounted pair of a truncated request and nothing else |
| Compound.ResultsDecode | src/nfs/nfs4.rs:516-522 | results decode one by one, without the body of a failed one |
| Compound.PutThenGet | src/nfs/nfs4.rs:712-758 | PUTFH then GETFH returns the handle and consumes the request exactly |
| Compound.RefusalDecodes | src/nfs/nfs4.rs:3600-3606 | a refused request is answered with its status, no tag and no results |
| Compound.WritingRefused | src/nfs/nfs4.rs:491-504 | a writing operation of root on a squashing export has status 1 and leaves no trace |
| Compound.HandleOperations | src/nfs/nfs4.rs:745-778 | GETFH, SAVEFH and RESTOREFH, with and without a handle |
| Compound.RootOperations | src/nfs/nfs4.rs:677-699 | PUTROOTFH and PUTPUBFH make the root's 32-byte handle current |
| Compound.PutOperation | src/nfs/nfs4.rs:712-743 | PUTFH's three failures, and the handle it makes current and has rebuilt |
| Compound.OtherOperations | src/nfs/nfs4.rs:506-535 | every other operation is asked with what is current and saved, and may only set the current handle |
| Clients.ClientManager.FindIdString | src/nfs/nfs4.rs:1966-1970 | the scan finds a record with the id string if there is one, in whatever order |
| Clients.ClientManager.OpSetClientId | src/nfs/nfs4.rs:1964-2056 | reconnect, refusal or new record, and the whole new state |
| Clients.ClientManager.OpSetClientIdConfirm | src/nfs/nfs4.rs:2058-2079 | confirms a known client and refuses an unknown one |
| Clients.ClientManager.OpExchangeId | src/nfs/nfs4.rs:2769-2869 | the owner's id, the stored sequence and the fresh record |
| Clients.ClientManager.OpCreateSession | src/nfs/nfs4.rs:2970-3032 | stores the session under the id derived from the client |
| Clients.Clamp | src/nfs/nfs4.rs:2979-2983 | a negotiated limit is the nearest value in the server's range |
| Clients.ClientManager.OpDestroySession | src/nfs/nfs4.rs:3040-3054 | removes the one session |
| Clients.ClientManager.OpDestroyClientId | src/nfs/nfs4.rs:3101-3118 | the retain loop drops every session of the client |
| Clients.ClientManager.OpSequence | src/nfs/nfs4.rs:3150-3190 | refuses unknown sessions and older sequence ids, otherwise renews the lease |
| Clients.ClientManager.CleanupExpired | src/nfs/nfs4.rs:3209-3252 | the removal loops leave the state the cleanup step describes |
| Clients.CleanupParts | src/nfs/nfs4.rs:3209-3252 | removing key by key yields the state described client by client and owner by owner |
| ClientRuns.CleanupExact | src/nfs/nfs4.rs:3209-3252 | what is left: sessions used in the last 300 s, clients that are recent or have such a session, owners that no removed record names, all unchanged |
| Clients.SessionIdInjective | src/nfs/nfs4.rs:2970-2977 | different clients have different session ids |
| ClientRuns.AlwaysKeyed | src/nfs/nfs4.rs:3018-3032 | in every run each session is stored under the id of its client |
| ClientRuns.OneSession | src/nfs/nfs4.rs:3018-3032 | a client has a session if and only if its key is in the table, and no other |
| ClientRuns.DestroyClientIsDestroySession | src/nfs/nfs4.rs:3110-3115 | DESTROY_CLIENTID's scan equals removing one key |
| ClientRuns.SessionAliveIffInLease | src/nfs/nfs4.rs:3150-3226 | in every run a session is alive if and only if nothing destroyed it and every cleanup since its last successful use came within 300 s; it then holds that use's time and sequence id |
| ClientRuns.SequenceAnswers | src/nfs/nfs4.rs:3150-3190 | in every run SEQUENCE is accepted if and only if the session is in lease and the sequence id is not below its last use's; it answers the larger of the two highest slots |
| ClientRuns.SessionNegotiated | src/nfs/nfs4.rs:2970-3032 | a session's key and record: 1 to 64 requests and 1 to 100 operations, as near as can be to what was asked |
| ClientRuns.ClientStep | src/nfs/nfs4.rs:3228-3251 | a cleanup keeps a client if and only if it is recent or has a surviving session; nothing else removes one |
| ClientRuns.ClientAliveIffKept | src/nfs/nfs4.rs:3209-3252 | in every run a client is known if and only if at each cleanup since its registration it was recent or had a surviving session |
| ClientRuns.AlwaysAgrees | src/nfs/nfs4.rs:2008-2047 | in every run ids are numbered below the counter, and owners and records belong to those the ids were allocated for |
| ClientRuns.HistoryGrows | src/nfs/nfs4.rs:2769-2787 | no id is allocated twice, also across cleanups |
| ClientRuns.AnswersIdentify | src/nfs/nfs4.rs:1966-2787 | in every run two answers with one id were asked for by one client, except exactly when one of the two, and not the other, borrowed an owner's id; only a SETCLIENTID with empty id string and zero verifier can |
| ClientRuns.BorrowsIffEmptyAndZero | src/nfs/nfs4.rs:1966-2000 | in every run a SETCLIENTID can be answered with an owner's id if and only if its id string is empty, its verifier zero, and an EXCHANGE_ID record is in the table |
| ClientRuns.EmptyIdStringTakesAnOwnersId | src/nfs/nfs4.rs:1966-2000 | it happens after one EXCHANGE_ID |
| ClientRuns.AlwaysOneRecord | src/nfs/nfs4.rs:1966-2047 | in every run a non-empty id string has one record at most |
| ClientRuns.SetClientIdStores | src/nfs/nfs4.rs:1966-2056 | refusal without change, or the record with the request's verifier, id string and confirm verifier; new ones unconfirmed under the next number |
| ClientRuns.ConfirmAnswers | src/nfs/nfs4.rs:2058-2079 | a confirmation succeeds if and only if the client is known |
| ClientRuns.ConfirmedIffNamed | src/nfs/nfs4.rs:2067-2070 | in every run a client is confirmed if and only if a confirmation has named it since its registration |
| ClientRuns.ExchangeAnswersOne | src/nfs/nfs4.rs:2829-2833 | in every run EXCHANGE_ID answers with sequence id 1 |
| ClientRuns.ScanDecided | src/nfs/nfs4.rs:1966-2004 | SETCLIENTID's answer is independent of the table's order if and only if no two records share the string while one has the verifier |
| ClientRuns.ScanIsOrderBlind | src/nfs/nfs4.rs:1966-2004 | so it is in every run for every non-empty id string |
| ClientRuns.SameOwnerSameId | src/nfs/nfs4.rs:2769-2787 | two EXCHANGE_IDs of an owner get one id if and only if no cleanup in between removed a record whose id string is the owner |
| ClientRuns.OwnerKeepsId | src/nfs/nfs4.rs:2763-2787 | a non-empty owner that no SETCLIENTID has used as id string keeps its id for good |
| ClientRuns.OwnerLosesId | src/nfs/nfs4.rs:3243-3248 | a run in which an owner with a live client and session is given a new id |
| ClientRaces.ExchangeAtOnce | src/nfs/nfs4.rs:2769-2869 | the locked parts of EXCHANGE_ID, with nothing in between, leave the tables and send the id of the atomic request |
| ClientRaces.SetClientIdAtOnce | src/nfs/nfs4.rs:1966-2047 | and so do those of SETCLIENTID |
| ClientRaces.RunSound | src/nfs/nfs4.rs:2769-2869 | under every interleaving of the locked steps ids in the tables and on their way belong to those they were issued for |
| ClientRaces.InterleavedAnswersIdentify | src/nfs/nfs4.rs:1966-2869 | however requests and cleanups interleave, one id is sent for two clients if and only if one of the two borrowed it |
| ClientRaces.OnlyLendingBorrows | src/nfs/nfs4.rs:1966-2000 | only the scan of a SETCLIENTID with empty id string adds a borrowed answer |
| ClientRaces.LendsIffEmptyAndZero | src/nfs/nfs4.rs:1966-2000 | and that scan can if and only if the verifier is zero and an EXCHANGE_ID record is in the table |
| ClientRaces.OneRecordIffNoDuplicate | src/nfs/nfs4.rs:1966-2047 | a step keeps id strings unique if and only if it does not enter one that another request entered meanwhile |
| ClientRaces.MappingKept | src/nfs/nfs4.rs:2776-2784 | a step keeps an owner's id if and only if it neither maps the owner again nor cleans up a record of that string |
| ClientRaces.OrderlyRunsKeepIds | src/nfs/nfs4.rs:1966-2869 | if only requests of the same client do not overlap, id strings stay unique and mappings stay until cleaned up |
| ClientRaces.TwoIdsForOneOwner | src/nfs/nfs4.rs:2769-2787 | two overlapping EXCHANGE_IDs of one owner are answered with two ids |
| RateLimit.ConnRateLimiter.Check | src/nfs/mod.rs:80-98 | one check's decision and the whole new table |
| RateLimit.ConnRateLimiter.Cleanup | src/nfs/mod.rs:101-107 | the retain loop keeps exactly the entries it should |
| RateLimit.CleanupRemovesNothing | src/nfs/mod.rs:101-107 | in every run cleanup removes nothing |
| RateLimit.Independence | src/nfs/mod.rs:80-108 | an address's entry depends on its own checks alone |
| RateLimit.SameChecksSameDecision | src/nfs/mod.rs:80-108 | equal checks of an address are decided equally, whatever else happens, cleanups included |
| RateLimit.SlidingWindow | src/nfs/mod.rs:80-98 | no interval as long as the window admits more than 2 * max - 1 connections of an address (one, if max is 0) |
| RateLimit.SlidingWindowTight | src/nfs/mod.rs:80-98 | that bound is reached |
| RateLimit.DecisionExact | src/nfs/mod.rs:80-98 | in every run a check is admitted if and only if it opens a new window or fewer than max came in its window before it, and reported if and only if it is the first refused in its window |
| RateLimit.IdleIsAdmitted | src/nfs/mod.rs:86-89 | an address that stays away for longer than the window is admitted again |
| RateLimit.FirstRejectOncePerWindow | src/nfs/mod.rs:91-97 | the first rejection is reported once per window |
| ConnCount.CounterBalanced | src/nfs/mod.rs:112-118 | under every interleaving the counter is the live connections plus the accept in flight, and live connections never exceed the limit |
| ConnCount.RejectedIffFull | src/nfs/mod.rs:401-420 | a connection is rejected if and only if the limit was live when it was counted, and leaves no trace |

## Left out

- Sockets, TLS, UDP, logging, configuration, service installation: input and output without logic of their own.
- The MOUNT and PORTMAP servers, RPC error texts, NFSv3 attribute replies, extended path names and constant replies (ACCESS, SECINFO, FSSTAT, RENEW): straight-line replies without state.
- The servers behind a dispatched record, and the socket writes of its reply, are functions given to `RecordStream`.
- The operations of a COMPOUND that are not about file handles are functions of everything the server has been asked so far, given to `Compound`; none of them returns a handle to save, as in the source.
- Parsing of the arguments of READDIR, LOCK, READ, WRITE, COPY, CLONE, SETCLIENTID, EXCHANGE_ID and CREATE_SESSION: the models start after it. COMPOUND's header, PUTFH and VERIFY are parsed from bytes.
- LOCK's choice of list: the key is a given number, because LOCK with a new owner and CLOSE read it from other bytes of the state id than OPEN stored; OPEN and CLOSE are not modelled.
- The layout of LOCK's and LOCKU's replies: only what they grant, deny or release.
- Access control: the read-only and root-squash rules appear only as the branch of COMPOUND that refuses an operation. SETATTR's walk is not modelled.
- The MAC is any function to 16 bytes, and the salt and key are given; nothing is said about forging, and a handle from before a restart is not claimed to be accepted.
- The symbolic-link and containment filter of `resolve_fh` comes after `LookupFh` and is not part of this model; `reload_exports_async` neither.
- Directories are finite trees that do not change during a search or a READDIR conversation, and the order of the export table does not change either; names are given as bytes, after the lossy conversion.
- Failures of the disk in the middle of `write_all`, file-size limits below 2^63 and concurrent writers: once a file is open, `FileRanges` takes each system call as complete, and only READ_PLUS's read may be short.
- SEQUENCE is one step and the server has no replay cache, so nothing is claimed about repeated requests.
- ClientRuns: every request is one step there; `ClientRaces` interleaves only EXCHANGE_ID, SETCLIENTID and cleanups, without clocks and sessions.
- ClientManager: its counter and that of LockManager must not reach 2^64-1. No input moves them but one new id at a time, so the wrap-around is modelled for the handle counter only.
- Slot tables, callbacks, delegations, BIND_CONN_TO_SESSION and the fixed fields of the EXCHANGE_ID and CREATE_SESSION replies.
