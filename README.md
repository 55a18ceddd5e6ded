# MYDB's transactional kernel, in Dafny

This project models the transactional kernel of MYDB, a small Java database, and proves
properties of the model. One Dafny module stands for each core source file:

- `Visibility` (`backend/vm/Visibility.java`): the MVCC rules: is an entry (XMIN, XMAX) visible to a transaction, and is a deletion a version skip.
- `LockTable` (`backend/vm/LockTable.java`): the five maps of the wait-for graph, `add`/`remove`/`selectNewXID`, and the stamped depth-first search `hasDeadLock`/`dfs`.
- `TransactionManager` (`backend/tm/TransactionManagerImpl.java`): the status file: an 8-byte counter, then one status byte per transaction id.
- `Logger` (`backend/dm/logger/LoggerImpl.java`): the write-ahead log: record framing, the rolling checksum, the scanning cursor and bad-tail removal at open.
- `AbstractCache` (`backend/common/AbstractCache.java`): the reference-counted cache with its capacity bound and write-back hook.
- `PageIndex` (`backend/dm/pageIndex/PageIndex.java`): the 41 free-space buckets and the bucket-rounding `select`.
- `DataItem` (`backend/dm/dataItem/DataItemImpl.java`): the [valid][size][data] layout and the `before`/`unBefore`/`after` edit protocol.
- `Entry` (`backend/vm/Entry.java`): the [XMIN][XMAX][data] layout of a version and `setXmax`.
- `PageOne` (`backend/dm/page/PageOne.java`): the clean-shutdown token at bytes 100..115 of page one.
- `Types` (`backend/utils/Types.java`): `addressToUid`, on 32-, 16- and 64-bit patterns.
- `BPlusTree` (`backend/im/BPlusTree.java`): the tree driver: sibling-chasing loops, split propagation, the boot record.
- `Encoder` (`transport/Encoder.java`): the wire envelope: a flag byte, then the payload.

Three helper modules stand for collaborators that are not part of this model. `Bytes` is the
`Parser` codec: fixed-width big-endian two's complement, with its round trips proved.
`Page` is the cached page (a shared buffer and a dirty flag), together with `System.arraycopy`.
`Wrappers` holds `Option` and `Result`.

The code follows the source, except where "## Findings" records a bug: there the logger and
the cache classes take the corrected behaviour, and the lock table class keeps the behaviour
as written, with the corrected specification beside it. Classes whose fields the source updates in place
become Dafny classes: the lock table, the transaction manager, the logger, the cache, the page
index, the data item, the entry and the tree. Their methods are proved against specification
functions, and the properties are lemmas about those functions. The rules with no state
(visibility, the envelope, the uid packing) are functions and lemmas. Files are byte sequences.
An abstract hook of the source is a parameter or a recorded sequence:

- `getForCache` is an `Option` argument.
- `releaseForCache` appends to `released`.
- `DataManagerImpl.logDataItem` appends to `logged`.
- The random token and `PAGE_SIZE` are parameters.
- `Node` and `DataManager` become the `NodeOps` record of functions.

Where the repository's design description and its code disagree, the model follows the code:

- The bad-tail check folds every record it can read, then compares the fold with the header
  once, at the end. A file whose header was not yet updated for its last record is rejected
  as a whole. The design text says the scan stops earlier.
- A data item's flag byte 0 means valid, although a layout comment says otherwise.
- `putIntoList` prepends. The handoff in `selectNewXID` therefore serves the newest waiter,
  although a comment calls it a fair lock.
- A handoff does not record the uid in the new holder's `x2u` list. The `LockTable` class keeps
  this behaviour; a corrected specification stands beside it (see Findings).
- A transaction status read past the end of the file leaves Java's buffer at zero. The id then
  reads as active.
- An entry created and then deleted by the same transaction is hidden from that transaction at
  both isolation levels, although the design text calls it visible.

## Model

Source paths are relative to the repository root.

| member | source | states |
|---|---|---|
| `Visibility.IsVersionSkip` | src/main/java/top/guoziyang/mydb/backend/vm/Visibility.java:16-23 | read-committed never reports a skip; under repeatable-read a deletion by another transaction is a skip iff its deleter committed and t cannot see that commit (later than t or in t's snapshot); an uncommitted deleter never is |
| `Visibility.IsVisible` | src/main/java/top/guoziyang/mydb/backend/vm/Visibility.java:25-31 | at both levels: t's own live insert is visible, an entry t deleted is not, an entry created by another uncommitted transaction is not |
| `Visibility.ReadCommitted` | src/main/java/top/guoziyang/mydb/backend/vm/Visibility.java:36-51 | own live insert visible; own deletion hidden; uncommitted creator hidden; committed creator with no deleter visible; committed deleter other than t hides; uncommitted deleter does not |
| `Visibility.RepeatableRead` | src/main/java/top/guoziyang/mydb/backend/vm/Visibility.java:54-69 | own live insert visible; own deletion hidden; a creator that is uncommitted, later than t or in t's snapshot hides the entry; a seen creator with a seen deleter is hidden; with a deleter that is uncommitted, later or in the snapshot it is visible |
| `Visibility.VisibilityMatchesDesign` | src/main/java/top/guoziyang/mydb/backend/vm/Visibility.java:25-69 | both levels agree, in both directions, with an independent definition: visible iff t's own live insert, or a creator t sees committed whose deleter is neither t nor one t sees committed |
| `Visibility.SelfDeletedEntryIsHidden` | src/main/java/top/guoziyang/mydb/backend/vm/Visibility.java:36-69 | an entry created and deleted by an uncommitted t is invisible to t and to every other transaction |
| `Visibility.RepeatableReadIgnoresConcurrentCommits` | src/main/java/top/guoziyang/mydb/backend/vm/Visibility.java:16-69 | under repeatable-read a transaction that was active or later when t began stays invisible after it commits: its insert is hidden, its deletion does not hide, and deleting over it is a version skip |
| `Types.AddressToUid` | src/main/java/top/guoziyang/mydb/backend/utils/Types.java:5-9 | for a non-negative offset, the low 32 bits of the uid are the offset and the high 32 bits the page number; a negative offset is sign-extended over the whole high half |
| `Types.LowHalfIsOffset` | src/main/java/top/guoziyang/mydb/backend/utils/Types.java:5-9 | for a non-negative offset the low 32 bits of the uid are the offset |
| `Types.HighHalfIsPage` | src/main/java/top/guoziyang/mydb/backend/utils/Types.java:5-9 | for a non-negative offset `uid >>> 32` is the page number's pattern |
| `Types.UidInjective` | src/main/java/top/guoziyang/mydb/backend/utils/Types.java:5-9 | distinct addresses with non-negative offsets have distinct uids |
| `Types.NegativeOffsetLosesPage` | src/main/java/top/guoziyang/mydb/backend/utils/Types.java:5-9 | a negative offset fills the high half with ones, so the uid no longer depends on the page |
| `Encoder.Encode` | src/main/java/top/guoziyang/mydb/transport/Encoder.java:19-30 | encoding succeeds iff the package has an error or data; the first byte is 1 for an error, else 0 |
| `Encoder.Decode` | src/main/java/top/guoziyang/mydb/transport/Encoder.java:32-44 | fails with InvalidPkgData iff the envelope is empty or its flag is neither 0 nor 1; a decoded package has data or an error, never both |
| `Encoder.DataRoundTrip` | src/main/java/top/guoziyang/mydb/transport/Encoder.java:19-44 | a data package encodes as [0] ++ data and decodes back to itself |
| `Encoder.ErrorRoundTrip` | src/main/java/top/guoziyang/mydb/transport/Encoder.java:19-44 | an error package encodes as [1] ++ its message, or "Intern server error!" without one, and decodes to an error carrying that message and no data |
| `Encoder.DecodeThenEncode` | src/main/java/top/guoziyang/mydb/transport/Encoder.java:19-44 | every envelope that decodes re-encodes to the same bytes |
| `TransactionManager.XidPosition` | src/main/java/top/guoziyang/mydb/backend/tm/TransactionManagerImpl.java:100-102 | an id's status byte lies at or after the 8-byte header iff the id is at least 1; the super transaction has none |
| `TransactionManager.CheckXidCounter` | src/main/java/top/guoziyang/mydb/backend/tm/TransactionManagerImpl.java:71-97 | a file is accepted iff it is at least 8 bytes and its length is `getXidPosition(counter + 1)`; the counter is then the number of status bytes, held in the header |
| `TransactionManager.CheckAcceptsExactly` | src/main/java/top/guoziyang/mydb/backend/tm/TransactionManagerImpl.java:71-102 | every file made of a header holding n and n status bytes is accepted with counter n |
| `TransactionManager.WriteByte` | src/main/java/top/guoziyang/mydb/backend/tm/TransactionManagerImpl.java:105-124 | a one-byte write at an offset sets that byte, extends the file only when the offset is its end, and changes no other byte |
| `TransactionManager.StatusByte` | src/main/java/top/guoziyang/mydb/backend/tm/TransactionManagerImpl.java:169-179 | the byte `checkXID` compares is the file's byte at the id's position, or 0 past the end |
| `TransactionManager.FileIsActive` | src/main/java/top/guoziyang/mydb/backend/tm/TransactionManagerImpl.java:169-184 | never for the super transaction; for an id past the end of the file, always; otherwise iff its status byte is ACTIVE |
| `TransactionManager.FileIsCommitted` | src/main/java/top/guoziyang/mydb/backend/tm/TransactionManagerImpl.java:169-189 | always for the super transaction; otherwise iff the id's status byte lies in the file and is COMMITTED |
| `TransactionManager.FileIsAborted` | src/main/java/top/guoziyang/mydb/backend/tm/TransactionManagerImpl.java:169-194 | never for the super transaction; otherwise iff the id's status byte lies in the file and is ABORTED |
| `TransactionManager.BeginFile` | src/main/java/top/guoziyang/mydb/backend/tm/TransactionManagerImpl.java:146-156 | the file grows by one byte: the counter field holds counter + 1, the other status bytes are unchanged and the new last byte is ACTIVE |
| `TransactionManager.BeginKeepsFileValid` | src/main/java/top/guoziyang/mydb/backend/tm/TransactionManagerImpl.java:146-156 | `begin` keeps the length check passing with counter + 1, leaves the new id active and no other id's status changed |
| `TransactionManager.BeginIdsIncrease` | src/main/java/top/guoziyang/mydb/backend/tm/TransactionManagerImpl.java:127-156 | two successive `begin`s hand out counter + 1 and then counter + 2 |
| `TransactionManager.SuperXidIsCommitted` | src/main/java/top/guoziyang/mydb/backend/tm/TransactionManagerImpl.java:181-194 | for id 0, whatever the file: committed, not active, not aborted |
| `TransactionManager.StatusesExclusive` | src/main/java/top/guoziyang/mydb/backend/tm/TransactionManagerImpl.java:169-194 | at most one of active, committed and aborted holds of any id |
| `TransactionManager.UnallocatedReadsActive` | src/main/java/top/guoziyang/mydb/backend/tm/TransactionManagerImpl.java:169-183 | an id above the counter reads as active |
| `TransactionManager.LastWriteWins` | src/main/java/top/guoziyang/mydb/backend/tm/TransactionManagerImpl.java:159-166 | of two status writes to the same id the last decides |
| `TransactionManager.TransactionManagerImpl.constructor` | src/main/java/top/guoziyang/mydb/backend/tm/TransactionManagerImpl.java:58-63 | opens an accepted file with the counter its header holds |
| `TransactionManager.TransactionManagerImpl.UpdateXid` | src/main/java/top/guoziyang/mydb/backend/tm/TransactionManagerImpl.java:105-124 | overwrites exactly the id's status byte; length and header unchanged |
| `TransactionManager.TransactionManagerImpl.IncrXidCounter` | src/main/java/top/guoziyang/mydb/backend/tm/TransactionManagerImpl.java:127-141 | counter + 1, written over the header; the rest of the file unchanged |
| `TransactionManager.TransactionManagerImpl.Begin` | src/main/java/top/guoziyang/mydb/backend/tm/TransactionManagerImpl.java:146-156 | returns the old counter + 1, which becomes the counter; the file is the old one with an active byte appended and the header rewritten, and stays valid |
| `TransactionManager.TransactionManagerImpl.Commit` | src/main/java/top/guoziyang/mydb/backend/tm/TransactionManagerImpl.java:159-161 | only the id's byte is overwritten with committed; the id is then committed and neither active nor aborted |
| `TransactionManager.TransactionManagerImpl.Abort` | src/main/java/top/guoziyang/mydb/backend/tm/TransactionManagerImpl.java:164-166 | only the id's byte is overwritten with aborted; the id is then aborted and neither active nor committed |
| `TransactionManager.TransactionManagerImpl.IsActive` | src/main/java/top/guoziyang/mydb/backend/tm/TransactionManagerImpl.java:169-184 | true iff the status byte of xid is ACTIVE (the super transaction never is); then it is neither committed nor aborted |
| `TransactionManager.TransactionManagerImpl.IsCommitted` | src/main/java/top/guoziyang/mydb/backend/tm/TransactionManagerImpl.java:169-189 | true iff xid is the super transaction or its status byte is COMMITTED; then it is neither active nor aborted |
| `TransactionManager.TransactionManagerImpl.IsAborted` | src/main/java/top/guoziyang/mydb/backend/tm/TransactionManagerImpl.java:169-194 | true iff the status byte of xid is ABORTED (the super transaction never is); then it is neither active nor committed |
| `Logger.ChecksumConcat` | src/main/java/top/guoziyang/mydb/backend/dm/logger/LoggerImpl.java:123-128 | the 32-bit rolling checksum of a ++ b is that of b started from that of a |
| `Logger.CalChecksum` | src/main/java/top/guoziyang/mydb/backend/dm/logger/LoggerImpl.java:123-128 | the rolling checksum stays a 32-bit value (Java `int` arithmetic); its fold law is `Logger.ChecksumConcat` |
| `Logger.WrapLog` | src/main/java/top/guoziyang/mydb/backend/dm/logger/LoggerImpl.java:160-164 | a framed record is 8 + \|data\| bytes ending with the data |
| `Logger.WrapLogFields` | src/main/java/top/guoziyang/mydb/backend/dm/logger/LoggerImpl.java:160-164 | its size field reads back as \|data\| and its checksum field as the data's checksum |
| `Logger.WrapLogIsRecord` | src/main/java/top/guoziyang/mydb/backend/dm/logger/LoggerImpl.java:160-164 | every framed record passes the size and checksum checks of `internNext` |
| `Logger.RecordIsWrapped` | src/main/java/top/guoziyang/mydb/backend/dm/logger/LoggerImpl.java:160-164 | every well-formed record is the framing of its own data |
| `Logger.FoldIsChecksumOfConcat` | src/main/java/top/guoziyang/mydb/backend/dm/logger/LoggerImpl.java:97-108 | folding the checksum record by record, headers included, is the checksum of all their bytes |
| `Logger.InternNextAt` | src/main/java/top/guoziyang/mydb/backend/dm/logger/LoggerImpl.java:178-213 | no record when `position + 8 >= fileSize`; a record returned lies within `fileSize` and is at least 8 bytes |
| `Logger.InternNextReadsRecord` | src/main/java/top/guoziyang/mydb/backend/dm/logger/LoggerImpl.java:178-213 | a record `internNext` returns is well formed: its size and checksum fields match its data |
| `Logger.InternNextReadsFile` | src/main/java/top/guoziyang/mydb/backend/dm/logger/LoggerImpl.java:178-213 | a record returned within the file is the file's bytes at the cursor |
| `Logger.InternNextReadsWrapped` | src/main/java/top/guoziyang/mydb/backend/dm/logger/LoggerImpl.java:178-213 | a whole framed record at the cursor is returned entire, unless it is empty and ends at `fileSize` |
| `Logger.EmptyRecordAtEndIsMissed` | src/main/java/top/guoziyang/mydb/backend/dm/logger/LoggerImpl.java:179-181 | an empty record logged last is never read back (the `>=`) |
| `Logger.OverrunEndsScan` | src/main/java/top/guoziyang/mydb/backend/dm/logger/LoggerImpl.java:190-193 | a size field that overruns `fileSize` gives no record |
| `Logger.ChecksumMismatchEndsScan` | src/main/java/top/guoziyang/mydb/backend/dm/logger/LoggerImpl.java:206-210 | data that does not match its checksum field gives no record |
| `Logger.TruncatedRecordIsBadTail` | src/main/java/top/guoziyang/mydb/backend/dm/logger/LoggerImpl.java:178-213 | a proper prefix of a framed record at the end of the file is never taken for a record |
| `Logger.ShortTailIsBadTail` | src/main/java/top/guoziyang/mydb/backend/dm/logger/LoggerImpl.java:179-181 | a tail of at most 8 bytes is never a record |
| `Logger.Scan` | src/main/java/top/guoziyang/mydb/backend/dm/logger/LoggerImpl.java:97-105 | repeated `internNext` from a position stops within `fileSize`, exactly after the records it read |
| `Logger.ScanWrapped` | src/main/java/top/guoziyang/mydb/backend/dm/logger/LoggerImpl.java:97-105 | records with data laid end to end, then a tail that is no record, scan as exactly those records |
| `Logger.ScanLaidOut` | src/main/java/top/guoziyang/mydb/backend/dm/logger/LoggerImpl.java:97-105 | framed records of data laid end to end from a position up to a tail that is no record scan as exactly those records, ending at that tail |
| `Logger.Payloads` | src/main/java/top/guoziyang/mydb/backend/dm/logger/LoggerImpl.java:216-225 | what `next` returns of each record: its bytes after the 8-byte header |
| `Logger.PayloadsOfWraps` | src/main/java/top/guoziyang/mydb/backend/dm/logger/LoggerImpl.java:216-225 | the payloads of framed records are the data that was framed |
| `Logger.ValidEnd` | src/main/java/top/guoziyang/mydb/backend/dm/logger/LoggerImpl.java:97-121 | the verdict of the tail check: none for a file under 4 bytes, otherwise an end between 4 and the file length |
| `Logger.ValidEndOfScan` | src/main/java/top/guoziyang/mydb/backend/dm/logger/LoggerImpl.java:97-108 | the check passes iff the fold of all records scanned equals the header, and then keeps what the scan read |
| `Logger.Open` | src/main/java/top/guoziyang/mydb/backend/dm/logger/LoggerImpl.java:67-121 | opening succeeds iff the tail check does; the file is then cut at the valid end, `fileSize` is that end and the checksum is the header's |
| `Logger.OpenAsWritten` | src/main/java/top/guoziyang/mydb/backend/dm/logger/LoggerImpl.java:67-121 | as written: the same truncation, but `fileSize` keeps the length read before it |
| `Logger.LogFile` | src/main/java/top/guoziyang/mydb/backend/dm/logger/LoggerImpl.java:133-164 | the file logging produces from an empty log: a header holding the checksum of the framed records, then the records |
| `Logger.OpenDropsBadTail` | src/main/java/top/guoziyang/mydb/backend/dm/logger/LoggerImpl.java:97-121 | records written whole followed by a crash tail that is no record: the scan reads exactly those records, and open keeps them and truncates the tail |
| `Logger.RescanReadsLogged` | src/main/java/top/guoziyang/mydb/backend/dm/logger/LoggerImpl.java:216-230 | after such an open, `rewind` then `next` until null reads back exactly the logged data |
| `Logger.OpenRejectsWrongHeader` | src/main/java/top/guoziyang/mydb/backend/dm/logger/LoggerImpl.java:106-108 | records whose fold differs from the header make open fail |
| `Logger.WrittenLogReopens` | src/main/java/top/guoziyang/mydb/backend/dm/logger/LoggerImpl.java:67-121 | a file of whole non-empty records with a matching header reopens to itself and rescans to all its records |
| `Logger.ReadAtRecordStart` | src/main/java/top/guoziyang/mydb/backend/dm/logger/LoggerImpl.java:178-213 | in a file of whole records, `internNext` at the start of record k returns it if it lies within `fileSize` (and is not an empty record ending there), no record otherwise, and never throws |
| `Logger.InternNextAtRecord` | src/main/java/top/guoziyang/mydb/backend/dm/logger/LoggerImpl.java:178-213 | at a well-formed record in the file, `internNext` returns it if it lies within `fileSize` and is not an empty record ending there, and no record otherwise |
| `Logger.PhantomRecordAfterOpen` | src/main/java/top/guoziyang/mydb/backend/dm/logger/LoggerImpl.java:86-111 | as written, after a bad tail of more than 8 bytes is cut, `internNext` at the new end returns a phantom record of 8 zero bytes |
| `Logger.PhantomRecordExample` | src/main/java/top/guoziyang/mydb/backend/dm/logger/LoggerImpl.java:86-111 | a 4-byte empty log with a 9-byte tail: as written a phantom record follows the open; with `fileSize` set to the cut length, none does |
| `Logger.LoggerImpl.constructor` | src/main/java/top/guoziyang/mydb/backend/dm/logger/LoggerImpl.java:54-58 | a logger over the file bytes, not yet initialised |
| `Logger.LoggerImpl.Init` | src/main/java/top/guoziyang/mydb/backend/dm/logger/LoggerImpl.java:67-90 | corrected (see Findings): succeeds iff `Open` does; the logger is then open with the cursor at the first record |
| `Logger.LoggerImpl.CheckAndRemoveTail` | src/main/java/top/guoziyang/mydb/backend/dm/logger/LoggerImpl.java:97-121 | corrected (see Findings): succeeds iff the tail check passes; the file then holds the header and the whole records, and the cursor is back at 4 |
| `Logger.LoggerImpl.Truncate` | src/main/java/top/guoziyang/mydb/backend/dm/logger/LoggerImpl.java:167-176 | the file is cut at x if it is longer; nothing else changes |
| `Logger.LoggerImpl.InternNext` | src/main/java/top/guoziyang/mydb/backend/dm/logger/LoggerImpl.java:178-213 | returns `InternNextAt` at the cursor and advances the cursor by the record's length only when it returns one |
| `Logger.LoggerImpl.Next` | src/main/java/top/guoziyang/mydb/backend/dm/logger/LoggerImpl.java:216-225 | on an open log returns the payload of the record at the cursor iff it lies within `fileSize` (and is not an empty record ending there), and moves past it |
| `Logger.LoggerImpl.Rewind` | src/main/java/top/guoziyang/mydb/backend/dm/logger/LoggerImpl.java:228-230 | the cursor goes back to 4, the first record |
| `Logger.LoggerImpl.Log` | src/main/java/top/guoziyang/mydb/backend/dm/logger/LoggerImpl.java:133-146 | appends the framed record, folds it, size and checksum fields included, into the header checksum, and leaves `fileSize` alone |
| `Logger.LoggerImpl.UpdateXChecksum` | src/main/java/top/guoziyang/mydb/backend/dm/logger/LoggerImpl.java:148-157 | the checksum becomes the old one folded with the record, written over the header |
| `Logger.LoggerImpl.Checksum` | src/main/java/top/guoziyang/mydb/backend/dm/logger/LoggerImpl.java:123-128 | the byte loop computes the rolling checksum |
| `LockTable.PutIntoList` | src/main/java/top/guoziyang/mydb/backend/vm/LockTable.java:177-182 | the value goes to the front of the key's list, created when missing; other keys unchanged |
| `LockTable.RemoveFromList` | src/main/java/top/guoziyang/mydb/backend/vm/LockTable.java:161-175 | other keys are untouched and no key is added; a kept list is non-empty and has one occurrence of `v` fewer; a dropped list held nothing but `v` |
| `LockTable.InList` | src/main/java/top/guoziyang/mydb/backend/vm/LockTable.java:184-195 | true iff `v` is in the list at `k`, a missing key counting as an empty list |
| `LockTable.RemoveFirstMultiset` | src/main/java/top/guoziyang/mydb/backend/vm/LockTable.java:161-175 | removing from a list drops exactly one occurrence, when there is one |
| `LockTable.RemoveUndoesPut` | src/main/java/top/guoziyang/mydb/backend/vm/LockTable.java:161-182 | removing what was just put back restores the map |
| `LockTable.IsInList` | src/main/java/top/guoziyang/mydb/backend/vm/LockTable.java:184-195 | the loop answers whether the value is in the key's list |
| `LockTable.RemoveFromListLoop` | src/main/java/top/guoziyang/mydb/backend/vm/LockTable.java:161-175 | the loop removes the first occurrence and drops a list left empty |
| `LockTable.FirstWaiting` | src/main/java/top/guoziyang/mydb/backend/vm/LockTable.java:104-115 | the first entry of the queue that still waits; every entry before it does not |
| `LockTable.NewHolder` | src/main/java/top/guoziyang/mydb/backend/vm/LockTable.java:104-115 | a new holder is a transaction queued on the uid that still waits; there is none only when no queued transaction still waits |
| `LockTable.SelectAsWritten` | src/main/java/top/guoziyang/mydb/backend/vm/LockTable.java:98-118 | as written: `x2u` is untouched, waiters only leave `waitLock`/`waitU`, a uid handed over goes to a transaction that was waiting and no longer is, and every other holder stays |
| `LockTable.SelectSpec` | src/main/java/top/guoziyang/mydb/backend/vm/LockTable.java:98-118 | corrected: the same handoff, and the new holder also lists the uid in its `x2u` |
| `LockTable.RemoveAsWritten` | src/main/java/top/guoziyang/mydb/backend/vm/LockTable.java:75-93 | as written: afterwards xid holds nothing recorded and waits for nothing |
| `LockTable.RemoveSpec` | src/main/java/top/guoziyang/mydb/backend/vm/LockTable.java:75-93 | corrected: afterwards xid holds nothing recorded and waits for nothing |
| `LockTable.ReleaseAsWritten` | src/main/java/top/guoziyang/mydb/backend/vm/LockTable.java:78-88 | as written: after the loop xid's `x2u` list is empty and nothing else in `x2u` changed; no transaction starts waiting |
| `LockTable.Release` | src/main/java/top/guoziyang/mydb/backend/vm/LockTable.java:78-88 | corrected: the loop with each handoff recorded; no transaction starts waiting, and an empty list changes nothing |
| `LockTable.AddSpec` | src/main/java/top/guoziyang/mydb/backend/vm/LockTable.java:45-72 | only xid can gain an `x2u` entry; a Wait records xid in `waitLock` and `waitU[xid] == uid`; only a Wait touches `waitLock`; unless the outcome is NoWait the holder maps are unchanged |
| `LockTable.FiniteHasNoCycle` | src/main/java/top/guoziyang/mydb/backend/vm/LockTable.java:144-159 | a walk along the wait-for graph that stops revisits no node |
| `LockTable.CycleHasHolder` | src/main/java/top/guoziyang/mydb/backend/vm/LockTable.java:128-159 | a walk that reaches a cycle passes a holder of some uid whose own walk reaches it, so starting from holders finds every cycle |
| `LockTable.AddOutcomes` | src/main/java/top/guoziyang/mydb/backend/vm/LockTable.java:45-72 | a uid already held: no wait, nothing changes; a free uid: held by xid, put at the front of its `x2u`, no wait structure touched; otherwise Wait iff, after queuing, no key of `x2u` reaches a cycle (the `hasDeadLock` verdict), with `waitU`, the front of `wait[uid]` and `waitLock` recording it, and Deadlock iff some key does |
| `LockTable.AddDeadlockRestores` | src/main/java/top/guoziyang/mydb/backend/vm/LockTable.java:59-63 | after a deadlock the graph is as before the call, but for xid's own `waitU` entry |
| `LockTable.AddPreservesValid` | src/main/java/top/guoziyang/mydb/backend/vm/LockTable.java:45-72 | `add` keeps the tables consistent and keeps every held uid recorded in its holder's list |
| `LockTable.NoSelfWait` | src/main/java/top/guoziyang/mydb/backend/vm/LockTable.java:48-58 | with every held uid recorded, a transaction never waits for a uid of its own |
| `LockTable.NewestWaiterFirst` | src/main/java/top/guoziyang/mydb/backend/vm/LockTable.java:177-182 | the transaction that blocked last is handed the uid first |
| `LockTable.HandoffAsWritten` | src/main/java/top/guoziyang/mydb/backend/vm/LockTable.java:98-118 | `selectNewXID` clears the holder, hands the uid to the first queued transaction that still waits, drops the entries before it, clears its wait, drops an emptied queue, and leaves `x2u` alone |
| `LockTable.SelectPreservesValid` | src/main/java/top/guoziyang/mydb/backend/vm/LockTable.java:98-118 | the handoff, as written and corrected, keeps the tables consistent |
| `LockTable.ReleasePreservesValid` | src/main/java/top/guoziyang/mydb/backend/vm/LockTable.java:78-88 | the loop of `remove`, handing each uid of a list on, as written and corrected, keeps the tables consistent |
| `LockTable.RemovePreservesValid` | src/main/java/top/guoziyang/mydb/backend/vm/LockTable.java:75-93 | `remove`, as written and corrected, keeps the tables consistent |
| `LockTable.DeadlockedIffCycle` | src/main/java/top/guoziyang/mydb/backend/vm/LockTable.java:128-159 | with every held uid recorded, the roots of `hasDeadLock` see a cycle iff the wait-for graph has one |
| `LockTable.SelectKeepsNoCycle` | src/main/java/top/guoziyang/mydb/backend/vm/LockTable.java:98-118 | a handoff never creates a cycle |
| `LockTable.RemoveKeepsNoCycle` | src/main/java/top/guoziyang/mydb/backend/vm/LockTable.java:75-93 | `remove` never creates a cycle |
| `LockTable.ReleaseKeepsNoCycle` | src/main/java/top/guoziyang/mydb/backend/vm/LockTable.java:78-88 | the loop of `remove`, as written and corrected, never creates a cycle |
| `LockTable.AddKeepsNoCycle` | src/main/java/top/guoziyang/mydb/backend/vm/LockTable.java:45-72 | with every held uid recorded, `add` never lets a cycle in |
| `LockTable.RemoveAsWrittenFrees` | src/main/java/top/guoziyang/mydb/backend/vm/LockTable.java:75-93 | as written, a transaction that is not blocked leaves `x2u`, `waitU` and `waitLock`, and no uid of its list still maps to it |
| `LockTable.RemoveReleases` | src/main/java/top/guoziyang/mydb/backend/vm/LockTable.java:75-93 | corrected: such a transaction holds no uid at all afterwards, and every held uid stays recorded |
| `LockTable.ReleaseRecords` | src/main/java/top/guoziyang/mydb/backend/vm/LockTable.java:78-88 | corrected: handing on every uid of the list leaves xid holding none of them, and every held uid recorded in its holder's list |
| `LockTable.ReleaseAsWrittenFrees` | src/main/java/top/guoziyang/mydb/backend/vm/LockTable.java:78-88 | as written: after the loop a transaction that is not blocked holds none of the uids it handed on |
| `LockTable.LockLeakAsWritten` | src/main/java/top/guoziyang/mydb/backend/vm/LockTable.java:109-111 | as written, 1 holds 7 and 2 waits; after `remove(1)` and `remove(2)` uid 7 is still held by 2, and a request for it waits for good |
| `LockTable.SelfWaitAsWritten` | src/main/java/top/guoziyang/mydb/backend/vm/LockTable.java:109-111 | as written, 2 asking again for the 7 it was handed waits for itself, a cycle `hasDeadLock` does not see |
| `LockTable.HandoffRecorded` | src/main/java/top/guoziyang/mydb/backend/vm/LockTable.java:109-111 | corrected: the handoff records 7 in 2's list, and removing 1 and then 2 frees 7 |
| `LockTable.LockTable.constructor` | src/main/java/top/guoziyang/mydb/backend/vm/LockTable.java:28-35 | empty tables, consistent |
| `LockTable.LockTable.Add` | src/main/java/top/guoziyang/mydb/backend/vm/LockTable.java:45-72 | the answer and the new tables are those of the `add` specification |
| `LockTable.LockTable.Remove` | src/main/java/top/guoziyang/mydb/backend/vm/LockTable.java:75-93 | the loop pops every uid of `x2u[xid]` and hands it on, then forgets xid: the `remove` specification as the source writes it |
| `LockTable.LockTable.SelectNewXid` | src/main/java/top/guoziyang/mydb/backend/vm/LockTable.java:98-118 | the loop performs the handoff as the source writes it: the first queued transaction that still waits gets the uid, and its `x2u` list is left alone |
| `LockTable.LockTable.HasDeadLock` | src/main/java/top/guoziyang/mydb/backend/vm/LockTable.java:128-142 | true iff some key of `x2u` reaches a cycle; the tables are unchanged |
| `LockTable.LockTable.Dfs` | src/main/java/top/guoziyang/mydb/backend/vm/LockTable.java:144-159 | true iff the walk from the tree's root revisits a node; stamps only grow; on false every stamped node's walk ends |
| `LockTable.DfsRevisit` | src/main/java/top/guoziyang/mydb/backend/vm/LockTable.java:145-148 | reaching a node already stamped in the current tree means the walk from the tree's root revisits a node |
| `LockTable.DfsJoin` | src/main/java/top/guoziyang/mydb/backend/vm/LockTable.java:145-151 | reaching a node of an earlier tree means the walk from the root stops, as does the walk from every stamped node |
| `LockTable.DfsEnd` | src/main/java/top/guoziyang/mydb/backend/vm/LockTable.java:152-155 | stamping a node that waits for nobody ends the walk: no cycle, and every stamped node's walk stops |
| `LockTable.DfsStep` | src/main/java/top/guoziyang/mydb/backend/vm/LockTable.java:152-158 | stamping a node that waits moves the search to the holder of its uid, one step further along the walk, repeating no node |
| `LockTable.StampedAreFinite` | src/main/java/top/guoziyang/mydb/backend/vm/LockTable.java:144-159 | once the walk from the root stops, so do the walks from all the nodes stamped in its tree |
| `AbstractCache.GetResident` | src/main/java/top/guoziyang/mydb/backend/common/AbstractCache.java:66-72 | a resident key returns its object with one more reference, no fetch and the same count |
| `AbstractCache.GetSpec` | src/main/java/top/guoziyang/mydb/backend/common/AbstractCache.java:49-103 | `released`, `getting` and the capacity never change; a found object is the one cached under key; a failed get (full cache, failed fetch) leaves the state unchanged |
| `AbstractCache.GetFull` | src/main/java/top/guoziyang/mydb/backend/common/AbstractCache.java:75-78 | a miss reports CacheFull iff the limit is positive and reached, and then nothing changes |
| `AbstractCache.GetMiss` | src/main/java/top/guoziyang/mydb/backend/common/AbstractCache.java:79-99 | a successful fetch makes the object resident with one reference and count + 1; a failed one leaves the state as it was |
| `AbstractCache.GetPreservesValid` | src/main/java/top/guoziyang/mydb/backend/common/AbstractCache.java:49-103 | `get` keeps equal key sets, references of at least one, count = residents + fetches, and the bound |
| `AbstractCache.ReleaseOutcome` | src/main/java/top/guoziyang/mydb/backend/common/AbstractCache.java:109-125 | the last reference writes the object back once and evicts it with count - 1; an earlier one only decrements; either way the cache stays consistent |
| `AbstractCache.ReleaseSpec` | src/main/java/top/guoziyang/mydb/backend/common/AbstractCache.java:109-125 | the key stays cached iff its reference count was not 1; otherwise its object is written back exactly once, appended to `released`, and nothing else is added |
| `AbstractCache.WriteBackOnce` | src/main/java/top/guoziyang/mydb/backend/common/AbstractCache.java:109-125 | releasing as often as there are references writes back exactly once, at the last release |
| `AbstractCache.CloseAsWrittenThrows` | src/main/java/top/guoziyang/mydb/backend/common/AbstractCache.java:134-140 | as written, `close` throws iff at least two objects are resident, and then some stay resident unwritten |
| `AbstractCache.CloseAsWritten` | src/main/java/top/guoziyang/mydb/backend/common/AbstractCache.java:131-144 | as written: the count is unchanged, no key is added, and at most one object is written back before the loop stops, after those already released |
| `AbstractCache.AbstractCache.constructor` | src/main/java/top/guoziyang/mydb/backend/common/AbstractCache.java:41-47 | an empty cache with the given limit |
| `AbstractCache.AbstractCache.Get` | src/main/java/top/guoziyang/mydb/backend/common/AbstractCache.java:49-103 | the outcome and new state are those of the `get` specification |
| `AbstractCache.AbstractCache.Release` | src/main/java/top/guoziyang/mydb/backend/common/AbstractCache.java:109-125 | the new state is that of the `release` specification |
| `AbstractCache.AbstractCache.Close` | src/main/java/top/guoziyang/mydb/backend/common/AbstractCache.java:131-144 | corrected (see Findings): every resident object is written back once, in the order returned, and leaves `cache` and `references`; `count` is not reset |
| `PageIndex.JavaDiv` | src/main/java/top/guoziyang/mydb/backend/dm/pageIndex/PageIndex.java:46 | Java's truncating `/`: the quotient times the divisor has the sign of the dividend and lies within one divisor of it, never beyond it |
| `PageIndex.AddIsOneMore` | src/main/java/top/guoziyang/mydb/backend/dm/pageIndex/PageIndex.java:32-40 | `add` appends the page to bucket `freeSpace / THRESHOLD`, changes no other bucket, adds one page in all, and keeps every page in its bucket |
| `PageIndex.AddSpec` | src/main/java/top/guoziyang/mydb/backend/dm/pageIndex/PageIndex.java:32-40 | `add` keeps the 41 buckets |
| `PageIndex.FirstNonEmpty` | src/main/java/top/guoziyang/mydb/backend/dm/pageIndex/PageIndex.java:48-55 | the lowest non-empty bucket from a start on, or none iff all of them are empty |
| `PageIndex.StartBucket` | src/main/java/top/guoziyang/mydb/backend/dm/pageIndex/PageIndex.java:46-47 | for a request that rounds below bucket 40, the search starts past every bucket that could hold free space of at most the request; for one that rounds to bucket 40 or below, it never starts past bucket 40 |
| `PageIndex.SelectSpec` | src/main/java/top/guoziyang/mydb/backend/dm/pageIndex/PageIndex.java:43-59 | `select` keeps the 41 buckets |
| `PageIndex.SelectOutcome` | src/main/java/top/guoziyang/mydb/backend/dm/pageIndex/PageIndex.java:43-59 | `select` finds nothing iff every bucket from the start is empty, and then nothing changes; otherwise one page fewer remains, every page still in its bucket |
| `PageIndex.SelectFits` | src/main/java/top/guoziyang/mydb/backend/dm/pageIndex/PageIndex.java:43-59 | when the request's bucket is below 40, a page found has more free space than asked for |
| `PageIndex.PageIndex.constructor` | src/main/java/top/guoziyang/mydb/backend/dm/pageIndex/PageIndex.java:23-29 | 41 empty buckets and `THRESHOLD = PAGE_SIZE / 40` |
| `PageIndex.PageIndex.Add` | src/main/java/top/guoziyang/mydb/backend/dm/pageIndex/PageIndex.java:32-40 | the buckets become those of the `add` specification |
| `PageIndex.PageIndex.Select` | src/main/java/top/guoziyang/mydb/backend/dm/pageIndex/PageIndex.java:43-59 | the loop removes and returns the head of the lowest non-empty bucket from the start bucket (`spaceSize / THRESHOLD + 1`, capped at 40) |
| `DataItem.UnBeforeUndoesEdits` | src/main/java/top/guoziyang/mydb/backend/dm/dataItem/DataItemImpl.java:62-72 | `before`, edits inside the snapshot range, then `unBefore` give the buffer back |
| `DataItem.DataItemImpl.constructor` | src/main/java/top/guoziyang/mydb/backend/dm/dataItem/DataItemImpl.java:36-45 | an item over the given view, snapshot buffer, page and uid, with nothing logged yet |
| `DataItem.DataItemImpl.IsValid` | src/main/java/top/guoziyang/mydb/backend/dm/dataItem/DataItemImpl.java:47-49 | true iff the valid byte is 0 |
| `DataItem.DataItemImpl.Data` | src/main/java/top/guoziyang/mydb/backend/dm/dataItem/DataItemImpl.java:54-56 | a view on the same buffer of the bytes from `start + 3` to `end` |
| `DataItem.DataItemImpl.Before` | src/main/java/top/guoziyang/mydb/backend/dm/dataItem/DataItemImpl.java:62-66 | the page is dirty, `oldRaw` holds the snapshot, and no buffer byte changes |
| `DataItem.DataItemImpl.UnBefore` | src/main/java/top/guoziyang/mydb/backend/dm/dataItem/DataItemImpl.java:69-72 | the snapshot is copied back over its range; no other byte changes |
| `DataItem.DataItemImpl.After` | src/main/java/top/guoziyang/mydb/backend/dm/dataItem/DataItemImpl.java:76-79 | the edit is logged under xid; the buffer is left alone |
| `Entry.WrapEntryRaw` | src/main/java/top/guoziyang/mydb/backend/vm/Entry.java:47-51 | 8 bytes of xid, 8 zero bytes, then the data: 16 + \|data\| bytes |
| `Entry.XminOf` | src/main/java/top/guoziyang/mydb/backend/vm/Entry.java:74-82 | a 64-bit value whose big-endian bytes are the XMIN field |
| `Entry.XmaxOf` | src/main/java/top/guoziyang/mydb/backend/vm/Entry.java:84-92 | a 64-bit value whose big-endian bytes are the XMAX field |
| `Entry.DataOf` | src/main/java/top/guoziyang/mydb/backend/vm/Entry.java:62-72 | the entry is the 16 id bytes followed by exactly these bytes |
| `Entry.WrapThenRead` | src/main/java/top/guoziyang/mydb/backend/vm/Entry.java:74-92 | a wrapped entry reads back with XMIN = xid, XMAX = 0 and the data |
| `Entry.SetXmaxReads` | src/main/java/top/guoziyang/mydb/backend/vm/Entry.java:94-102 | writing XMAX changes XMAX only: XMIN and the data read the same |
| `Entry.Entry.Data` | src/main/java/top/guoziyang/mydb/backend/vm/Entry.java:62-72 | a fresh copy of the view's bytes after the two ids |
| `Entry.Entry.GetXmin` | src/main/java/top/guoziyang/mydb/backend/vm/Entry.java:74-82 | a 64-bit value whose big-endian bytes are the XMIN field |
| `Entry.Entry.GetXmax` | src/main/java/top/guoziyang/mydb/backend/vm/Entry.java:84-92 | a 64-bit value whose big-endian bytes are the XMAX field |
| `Entry.Entry.SetXmax` | src/main/java/top/guoziyang/mydb/backend/vm/Entry.java:94-102 | only bytes [8, 16) of the view change, to xid; the edit is bracketed by `before` (dirty page, snapshot) and `after` under the same xid |
| `Entry.NewEntry` | src/main/java/top/guoziyang/mydb/backend/vm/Entry.java:31-40 | null exactly when the data item is; otherwise a new entry on it |
| `PageOne.CopyOfRange` | src/main/java/top/guoziyang/mydb/backend/dm/page/PageOne.java:57-59 | `Arrays.copyOfRange`: the range itself when it lies in the buffer, zero-padded past its end |
| `PageOne.CheckVcBytes` | src/main/java/top/guoziyang/mydb/backend/dm/page/PageOne.java:57-59 | the check holds iff bytes [100, 108) equal bytes [108, 116) |
| `PageOne.CheckVc` | src/main/java/top/guoziyang/mydb/backend/dm/page/PageOne.java:53-59 | on a page long enough, true iff bytes 100..107 equal bytes 108..115 |
| `PageOne.CloseThenCheck` | src/main/java/top/guoziyang/mydb/backend/dm/page/PageOne.java:48-59 | after the close copy the check passes |
| `PageOne.OpenThenCheck` | src/main/java/top/guoziyang/mydb/backend/dm/page/PageOne.java:37-59 | after an open writes a token, the check passes iff the closed copy already equals the token |
| `PageOne.InitRaw` | src/main/java/top/guoziyang/mydb/backend/dm/page/PageOne.java:23-27 | a fresh zeroed page of the page size with the token at 100 |
| `PageOne.InitRawIsZeroElsewhere` | src/main/java/top/guoziyang/mydb/backend/dm/page/PageOne.java:23-39 | that page is zero except for the 8 token bytes at 100..107 |
| `PageOne.SetVcOpenRaw` | src/main/java/top/guoziyang/mydb/backend/dm/page/PageOne.java:37-39 | the token is written at [100, 108) and nothing else changes |
| `PageOne.SetVcCloseRaw` | src/main/java/top/guoziyang/mydb/backend/dm/page/PageOne.java:48-50 | bytes [100, 108) are copied to [108, 116) and nothing else changes |
| `PageOne.SetVcOpen` | src/main/java/top/guoziyang/mydb/backend/dm/page/PageOne.java:32-35 | the page is dirty and holds the token at [100, 108); no other byte changes |
| `PageOne.SetVcClose` | src/main/java/top/guoziyang/mydb/backend/dm/page/PageOne.java:43-46 | the page is dirty, holds the copy, and passes `checkVc` |
| `BPlusTree.CreateRecordsRoot` | src/main/java/top/guoziyang/mydb/backend/im/BPlusTree.java:49-53 | `create` stores the empty root, then a distinct boot record of 8 bytes that parse to the root's uid |
| `BPlusTree.Create` | src/main/java/top/guoziyang/mydb/backend/im/BPlusTree.java:49-53 | in a well-formed store the boot record is a fresh non-zero uid, distinct from the root's, holding the root's uid in 8 big-endian bytes |
| `BPlusTree.SearchNextSpec` | src/main/java/top/guoziyang/mydb/backend/im/BPlusTree.java:103-111 | following siblings from an internal node ends at a non-zero child one level down or more |
| `BPlusTree.SearchLeafSpec` | src/main/java/top/guoziyang/mydb/backend/im/BPlusTree.java:90-101 | the descent ends at a leaf no higher than where it started |
| `BPlusTree.LeafChain` | src/main/java/top/guoziyang/mydb/backend/im/BPlusTree.java:117-133 | the leaves a range search visits start at the leaf it is given |
| `BPlusTree.LeafChainLinks` | src/main/java/top/guoziyang/mydb/backend/im/BPlusTree.java:117-133 | they are all leaves, each the next one's reporter of it and further right, so none is visited twice; the last reports no sibling |
| `BPlusTree.CollectedStep` | src/main/java/top/guoziyang/mydb/backend/im/BPlusTree.java:121-131 | one leaf's uids appended, the rest of the chain accounts for the rest of the result; a leaf with no sibling ends it |
| `BPlusTree.SearchRangeSpec` | src/main/java/top/guoziyang/mydb/backend/im/BPlusTree.java:117-133 | the answer starts with what the leaf of the lower bound reports, and is exactly that when this leaf names no sibling |
| `BPlusTree.NoSplitStaysPut` | src/main/java/top/guoziyang/mydb/backend/im/BPlusTree.java:168-182 | when no node splits, `insertAndSplit` reports no new node |
| `BPlusTree.NoSplitKeepsRoot` | src/main/java/top/guoziyang/mydb/backend/im/BPlusTree.java:148-166 | when no node splits, an insertion never reaches the root |
| `BPlusTree.InsertAndSplitSpec` | src/main/java/top/guoziyang/mydb/backend/im/BPlusTree.java:168-182 | the split the sibling chase returns is one some node's `insertAndSplit` reported while passing nothing further right: the driver never invents a split |
| `BPlusTree.InsertSpec` | src/main/java/top/guoziyang/mydb/backend/im/BPlusTree.java:148-166 | a split that `insert` reports at a node is one some node's `insertAndSplit` reported |
| `BPlusTree.SplitPropagatesUp` | src/main/java/top/guoziyang/mydb/backend/im/BPlusTree.java:157-164 | at an internal node, `insert` reports a split only when the child on the descent path split first |
| `BPlusTree.BPlusTree.Load` | src/main/java/top/guoziyang/mydb/backend/im/BPlusTree.java:55-64 | a tree over the boot record read from `bootUid` |
| `BPlusTree.BPlusTree.RootUid` | src/main/java/top/guoziyang/mydb/backend/im/BPlusTree.java:66-73 | a 64-bit value whose big-endian bytes are the first 8 bytes of the boot record's data |
| `BPlusTree.BPlusTree.UpdateRootUid` | src/main/java/top/guoziyang/mydb/backend/im/BPlusTree.java:76-88 | a new root over left and right is stored, and `rootUid` then returns its uid; the boot record is edited under `before`/`after` with SUPER_XID |
| `BPlusTree.BPlusTree.SearchNext` | src/main/java/top/guoziyang/mydb/backend/im/BPlusTree.java:103-111 | the loop returns the child `SearchNextSpec` names |
| `BPlusTree.BPlusTree.SearchLeaf` | src/main/java/top/guoziyang/mydb/backend/im/BPlusTree.java:90-101 | the recursion returns the leaf `SearchLeafSpec` names |
| `BPlusTree.BPlusTree.SearchRange` | src/main/java/top/guoziyang/mydb/backend/im/BPlusTree.java:117-133 | the uids the leaves report from `leftKey`'s leaf along the sibling chain, in chain order |
| `BPlusTree.BPlusTree.Search` | src/main/java/top/guoziyang/mydb/backend/im/BPlusTree.java:113-115 | the range search from key to key |
| `BPlusTree.BPlusTree.InsertAndSplit` | src/main/java/top/guoziyang/mydb/backend/im/BPlusTree.java:168-182 | moves right while a node passes the insertion to its sibling; the first node that takes it gives the result |
| `BPlusTree.BPlusTree.InsertNode` | src/main/java/top/guoziyang/mydb/backend/im/BPlusTree.java:148-166 | inserts below the node and absorbs the child's split, as `InsertSpec` says |
| `BPlusTree.BPlusTree.Insert` | src/main/java/top/guoziyang/mydb/backend/im/BPlusTree.java:135-142 | inserts from the root. Unless the root split, the root and the whole boot item (bytes, page, undo copy, log) are unchanged. After a split, a new root over the old one and the split-off node becomes the root: the boot bytes change only in the 8-byte uid field, the page is dirty, the undo copy holds the old bytes and one record is logged under the super transaction |

## Left out

- Concurrency is not modelled: the locks, `Thread.sleep`, and waking a waiter with `unlock`.
  A waiting transaction is membership in `waitLock`.
- AbstractCache.AbstractCache.Get: a key that another thread is fetching gives `Busy`; the
  source sleeps and retries. Without threads, `getting` is empty between calls.
- AbstractCache.AbstractCache.Close: walks the resident keys in an order it chooses. A hash
  map's iteration order is not modelled, so `order` is any order listing each key once.
- AbstractCache.AbstractCache.Release: requires a resident key. The source unboxes a missing
  reference count and throws.
- I/O is not modelled: file channels, `force`, `seek` and `close`. Each file is a byte
  sequence, and every write is visible at once.
- TransactionManager.TransactionManagerImpl.constructor: requires a file the length check
  accepts. The source panics on any other file.
- TransactionManager.TransactionManagerImpl.Commit, Abort and UpdateXid: require
  1 <= xid <= counter. The source does not check. Id 0 would overwrite the last header byte,
  and an id past the end would extend the file.
- TransactionManager.TransactionManagerImpl.Begin: requires the counter below 2^63 - 1. A Java
  `long` would wrap.
- Logger.LoggerImpl.constructor: models the two-argument constructor. The three-argument
  constructor used when a new log is created is not part of this model.
- Logger.LoggerImpl.Log: requires an open log and data shorter than 2^31 bytes, the most a
  Java array holds.
- Logger.LoggerImpl.CheckAndRemoveTail: requires the state `init` leaves before calling it.
- Logger.LoggerImpl.Init and Logger.LoggerImpl.CheckAndRemoveTail: set `fileSize` to the cut length; the source keeps the length read before the cut (LoggerImpl.java:86), so its `next` can return phantom empty records after a cut tail of more than 8 bytes. `Logger.OpenAsWritten` and `Logger.PhantomRecordAfterOpen` model that behaviour on values; the class keeps `fileSize <= |file|` in `Valid`.
- PageIndex.PageIndex.constructor: requires a page size of at least 40. Below that,
  `THRESHOLD` is zero and every `add` divides by zero.
- PageIndex.PageIndex.Add and PageIndex.PageIndex.Select: require a bucket number within the
  41 buckets. Java throws `ArrayIndexOutOfBoundsException` otherwise.
- Entry.Entry.Data, Entry.Entry.GetXmin, Entry.Entry.GetXmax and Entry.Entry.SetXmax: require an item with at least 16 data bytes, as
  every entry made by `wrapEntryRaw` has.
- Entry: the version manager, `loadEntry`, `release` and `remove` are not part of this model.
- DataItem: `release`, `lock` and the read/write lock methods are not part of this model.
  `DataManagerImpl.logDataItem` is the `logged` sequence of transaction ids.
- Page.ArrayCopy: requires disjoint ranges when source and target are one array. Every caller
  here copies between disjoint ranges.
- LockTable.LockTable.Add, HasDeadLock and Dfs: require every waited-for uid to have a holder.
  In the source, `dfs` asserts this.
- `Node` and `DataManager` are not part of this model. Their operations are the functions of
  `NodeOps`, constrained only by what the driver needs.
- BPlusTree: the loops and recursions of the tree terminate by two measures: a node's level and
  its distance from the right end. They are NodeOps fields that only the proofs use. A tree
  whose sibling links form a cycle is excluded by `WellFormed`; there the Java loops would not
  end.
- BPlusTree.BPlusTree.Load: the boot record is read by the caller. The data manager's copy of
  the boot record is kept apart from the abstract store.
- BPlusTree.close only releases the boot item to the cache. It is not modelled.
- Encoder: Java's charset conversion in `getBytes` and `new String` is not modelled. Messages
  are byte sequences.
- Bytes: `Parser` is not part of this model. It is modelled as big-endian; the proofs use only
  its widths and round trips.

## Findings

| source | as written | input that shows it | evidently intended | confidence | as-written member | corrected member |
|---|---|---|---|---|---|---|
| src/main/java/top/guoziyang/mydb/backend/dm/logger/LoggerImpl.java:86-111 | `init` records `fileSize` before `checkAndRemoveTail` truncates the bad tail, and never updates it. Reads past the new end see zeros up to the old length. | an empty log (header 0) followed by a 9-byte tail of 127s: after open, `next` returns a phantom empty record | `fileSize` is the truncated length, so the rescan ends at the last valid record | not executed | `Logger.OpenAsWritten`, `Logger.PhantomRecordAfterOpen`, `Logger.PhantomRecordExample` | `Logger.Open`, `Logger.OpenDropsBadTail`, `Logger.RescanReadsLogged`, `Logger.LoggerImpl.Init`, `Logger.LoggerImpl.CheckAndRemoveTail` |
| src/main/java/top/guoziyang/mydb/backend/vm/LockTable.java:109-111 | the handoff sets `u2x[uid]` but does not add uid to the new holder's `x2u` list | 1 holds 7 and 2 waits for it; `remove(1)`, then `remove(2)`: 7 stays held by 2 for good, and 2 asking for 7 again waits for itself unseen | the new holder's list records the uid, so its `remove` releases it | not executed | `LockTable.LockTable.SelectNewXid`, `LockTable.LockTable.Remove`, `LockTable.SelectAsWritten`, `LockTable.RemoveAsWritten`, `LockTable.LockLeakAsWritten`, `LockTable.SelfWaitAsWritten` | `LockTable.SelectSpec`, `LockTable.RemoveSpec`, `LockTable.HandoffRecorded`, `LockTable.RemoveReleases` |
| src/main/java/top/guoziyang/mydb/backend/common/AbstractCache.java:134-140 | `close` removes entries from the map whose key set it is iterating | two resident keys: the iterator's second step throws `ConcurrentModificationException` after one write-back | every resident object is written back and removed | not executed | `AbstractCache.CloseAsWritten`, `AbstractCache.CloseAsWrittenThrows` | `AbstractCache.AbstractCache.Close` |
