# javaDB core in Dafny

A model of the single class `DB` of javaDB. javaDB is a Bitcask-style, append-only key-value store. The model covers:

- writes that append `key:value;` entries to numbered segment files and rotate to a new segment once the active one is longer than `FILE_MAX_LENGTH`;
- an in-memory index of segment id -> (key -> record), mirrored into one cache file per segment;
- reads that walk the ids newest-first and slice out the recorded byte range;
- compaction (`task`), which copies every segment except the active one into merge files numbered from 0 and then retires the old ids;
- the rebuild of the id list from the cache files at start-up.

The whole store is one immutable value, `State.Store`. It has four parts:

- `indexes`: the ascending id list, whose last id is the active segment;
- `cache`: the in-memory index;
- `data`: the data files, as byte sequences keyed by id;
- `snapshots`: the cache files, as saved copies of sub-maps.

Every operation is a pure function. An operation that can raise a Java exception returns `State.Outcome`, which carries the state left behind together with the fault. The source's exceptions leave partly mutated static state behind, and that state is what the model keeps.

Modules follow the structure of the class:

- `Wrappers`: `Option`.
- `Ordering`: sorted enumeration of id sets and key sets.
- `Codec`: the entry text, UTF-8, and Java's UTF-16 `String.length()`.
- `Index`: `Record`, the newest-first lookup and `putCacheMap`.
- `State`: the store, its invariants, `createFile` and the byte-range read.
- `Compaction`: `task`.
- `Db`: `write`, `read` and the start-up rebuild.
- `Restart`: what the cache files preserve across a restart.
- `Findings`: the source's behaviour where it departs from what it evidently intends.

Where descriptions of this store and the code disagree, the model follows the code:

- After a rotation, the entry goes into the new segment at offset 0, not into the full one. `curPath` is reassigned before the append.
- `putCacheMap` removes the key from the first sub-map of the descending walk only, not from every other sub-map. Its `break` stops the walk.
- A record brackets the whole `key:value;` entry, so a read returns the whole entry.
- A failing compaction can leave a partly retired store; the source has no rollback. This case is under Findings.

## Model

| member | source | states |
|---|---|---|
| State.Active | src/main/java/org/wtsm/DB.java:318-320 | The active segment is a listed id, and on an ascending list no listed id exceeds it. |
| State.Lookup | src/main/java/org/wtsm/DB.java:322-344 | A read returns nothing exactly when no sub-map of any id holds the key. |
| State.PutKeepsOtherLookups | src/main/java/org/wtsm/DB.java:193-201 | Indexing one key, over files that only grew, leaves the read of every other key unchanged. |
| State.PutFindsEntry | src/main/java/org/wtsm/DB.java:193-201 | Indexing a key in an id no sub-map exceeds makes the next read of that key return exactly the bytes of the new record. |
| State.ActiveKeyDecides | src/main/java/org/wtsm/DB.java:325-330 | A key held by the active sub-map is found there, so two consistent stores with the same active id, sub-map and data file read it alike. |
| State.CreateFile | src/main/java/org/wtsm/DB.java:175-188 | createFile makes the file empty when it is missing and leaves every existing file, including that one, untouched. |
| State.CreateFileIdempotent | src/main/java/org/wtsm/DB.java:175-178 | Creating the same file twice is the same as creating it once. |
| Index.Newest | src/main/java/org/wtsm/DB.java:325-330 | The descending walk stops at the highest id whose sub-map holds the key; it finds nothing exactly when no sub-map holds it. |
| Index.Find | src/main/java/org/wtsm/DB.java:325-333 | A read finds no record exactly when no sub-map holds the key. Otherwise it uses the record stored under the key by the highest sub-map that holds it. |
| Index.Put | src/main/java/org/wtsm/DB.java:193-201 | After putCacheMap the key maps to the new record in the active sub-map. Of the other sub-maps, only the newest one that held the key loses it. Every other key of the active sub-map is kept, and ids are only added. |
| Index.PutKeepsOtherKeys | src/main/java/org/wtsm/DB.java:193-201 | putCacheMap on one key changes neither which ids hold any other key nor the record a read of it finds. |
| Index.PutMakesActiveNewest | src/main/java/org/wtsm/DB.java:200 | When no id exceeds the active one, the key is afterwards found in the active sub-map with the new record. |
| Index.PutPreservesUnique | src/main/java/org/wtsm/DB.java:193-201 | If every key was in at most one sub-map before putCacheMap, that still holds afterwards. |
| Codec.EntryText | src/main/java/org/wtsm/DB.java:122 | The entry is the key, a colon, the value and a semicolon, and is exactly two characters longer than key and value together. |
| Codec.EncodeChar | src/main/java/org/wtsm/DB.java:141 | UTF-8 encodes one character in one to four bytes: one byte exactly for ASCII, four exactly above U+FFFF. |
| Codec.Utf8 | src/main/java/org/wtsm/DB.java:141 | The encoded bytes are never fewer than the characters, and are empty exactly for the empty string. |
| Codec.Utf16Length | src/main/java/org/wtsm/DB.java:146 | `String.length()` lies between the number of characters and twice that number. |
| Codec.Utf16LengthVersusUtf8 | src/main/java/org/wtsm/DB.java:141-146 | For entries made of Unicode scalar values, the recorded size never exceeds the number of bytes appended, and equals it exactly when the entry is ASCII. |
| Codec.AsciiEncodesBytewise | src/main/java/org/wtsm/DB.java:141 | ASCII text encodes to one byte per character, each byte being the character's code. |
| Ordering.SortedIds | src/main/java/org/wtsm/DB.java:112 | The ids are listed strictly ascending, each id of the set exactly once. |
| Ordering.SortedKeys | src/main/java/org/wtsm/DB.java:223 | The keys of a sub-map are enumerated exactly once each, in strictly ascending lexicographic order. This is the deterministic order that stands in for the sub-map's iteration order. |
| Ordering.LeastKey | src/main/java/org/wtsm/DB.java:223 | The chosen key is below every other key of the set in lexicographic order. |
| Db.Append | src/main/java/org/wtsm/DB.java:124-157 | The append rotates exactly when the active file is longer than the limit. Rotating appends active + 1 to the list; otherwise the list is kept and nothing raises. It raises exactly when it rotates onto an id whose data file already exists. |
| Db.AppendOnlyExtendsTarget | src/main/java/org/wtsm/DB.java:130-157 | Only the target segment changes. It keeps its old bytes and gains exactly the entry. The record's offset is its old length, the target becomes the active id, every other file is untouched, and only the target's cache file is rewritten. |
| Db.ConsistentAppendSucceeds | src/main/java/org/wtsm/DB.java:130-137 | On a consistent store, rotation never meets an existing data file, so the append never raises. |
| Db.AppendKeepsConsistent | src/main/java/org/wtsm/DB.java:121-157 | Appending keeps the list ascending, every record inside its file, every sub-map listed and no data file beyond the active id. |
| Db.AppendFindsEntry | src/main/java/org/wtsm/DB.java:138-147 | After the append, a read of the key returns exactly the first `size` bytes appended. |
| Db.AppendKeepsOtherKeys | src/main/java/org/wtsm/DB.java:193-201 | After the append, a read of any other key returns what it returned before. |
| Db.AppendKeepsWellFormed | src/main/java/org/wtsm/DB.java:130-147 | Appending keeps every record in bounds and the list ascending, even when it raises. |
| Db.Target | src/main/java/org/wtsm/DB.java:124-137 | The entry goes to the active id, or to the next id exactly when the active data file exists and is longer than the limit. |
| Db.AppendThenCompact | src/main/java/org/wtsm/DB.java:121-170 | The body of write raises only by rotating onto an id that already has a data file, exactly when that happens, or by the merge collision of its task. |
| Db.Write | src/main/java/org/wtsm/DB.java:121-170 | write raises `SegmentExists` exactly when it rotates onto an id that already has a data file (`Files.createFile`, line 135); any other fault is the merge collision of its task. |
| Db.AppendThenCompactLookup | src/main/java/org/wtsm/DB.java:121-170 | After the append and any compaction it triggers, the key reads its new bytes and every other key reads as before. |
| Db.WriteThenRead | src/main/java/org/wtsm/DB.java:121-170 | Round trip: straight after write(key, value), read(key) returns the whole UTF-8 entry `key:value;` and every other key reads as before. This holds whether or not the write rotated and compacted, and the store stays consistent. |
| Db.ReadStopsAtNewest | src/main/java/org/wtsm/DB.java:325-330 | The first id of the descending walk that holds the key is the highest id holding it. |
| Db.ReadFindsNothing | src/main/java/org/wtsm/DB.java:325-333 | A walk that passed every id without a hit means no sub-map holds the key. |
| Db.FindNewest | src/main/java/org/wtsm/DB.java:325-330 | The loop over ids in descending order returns the id the newest-first lookup defines. |
| Db.Read | src/main/java/org/wtsm/DB.java:322-346 | read returns nothing for a key no sub-map holds; otherwise it returns exactly bytes [offset, offset + size) of the newest holder's segment. |
| Db.Init | src/main/java/org/wtsm/DB.java:100-118 | The index is loaded from the cache files. The id list is those ids strictly ascending, or [0] when there are none. |
| Compaction.AppendOpen | src/main/java/org/wtsm/DB.java:224-255 | Copying an entry appends its bytes to the open merge file and leaves earlier files alone. A fresh empty file follows exactly when the open one has grown past the limit. |
| Compaction.AppendOpenFlatten | src/main/java/org/wtsm/DB.java:234-237 | Copying an entry adds exactly its bytes after all bytes copied so far. |
| Compaction.CopyEntry | src/main/java/org/wtsm/DB.java:223-255 | One turn of the copy loop keeps the merge invariant. The merged index stays inside opened files. The running offset is the open file's length. Closed files exceed the limit and the open one does not. |
| Compaction.CopyEntryRecords | src/main/java/org/wtsm/DB.java:239-255 | The copied entry is recorded at the running offset under the open merge index, where its bytes now lie. Other records are kept. The offset resets to 0 and the merge index advances exactly when the file has grown past the limit. |
| Compaction.CopyEntryLookup | src/main/java/org/wtsm/DB.java:239-246 | After one turn, the merged index finds the entry's own bytes under its key and answers every other key as before. |
| Compaction.Copy | src/main/java/org/wtsm/DB.java:214-264 | The copy loop keeps the merge invariant. It opens a merge file exactly when it copies something, and never drops a file. |
| Compaction.CopyWritesAllBytes | src/main/java/org/wtsm/DB.java:214-264 | The merge files hold exactly the visited entries' bytes, back to back, in visiting order. |
| Compaction.CopyLookup | src/main/java/org/wtsm/DB.java:223-246 | After the copy loop, the merged index returns for each key the bytes of the last visited entry with that key. |
| Compaction.SegmentItemsSkips | src/main/java/org/wtsm/DB.java:214-233 | A segment is skipped exactly when it has no sub-map, an empty one, or no data file. Otherwise it yields one entry per key of its sub-map, each with the bytes its record brackets. |
| Compaction.VisitItemsEmpty | src/main/java/org/wtsm/DB.java:214-233 | The copy loop visits nothing exactly when it skips every mergeable segment. |
| Compaction.EntryItems | src/main/java/org/wtsm/DB.java:223-233 | The entries visited in one segment are its keys in the given order, each paired with the bytes its record brackets. |
| Compaction.EntryItemsLast | src/main/java/org/wtsm/DB.java:223-244 | Within one segment, a key's visited bytes are those its record brackets, and a key the sub-map lacks is not visited. |
| Compaction.VisitFindsNewest | src/main/java/org/wtsm/DB.java:214-246 | Visiting ascending ids, the last entry seen for a key comes from the highest visited id holding it, which is what a newest-first lookup over those ids returns. |
| Compaction.Through | src/main/java/org/wtsm/DB.java:274-284 | Retirement removes a prefix of the list that ends at the first occurrence of the last id to merge, or the whole list when that id is absent. |
| Compaction.ThroughNextToLast | src/main/java/org/wtsm/DB.java:210 | On an ascending list, retiring through the next-to-last id retires every id but the active one. |
| Compaction.Range | src/main/java/org/wtsm/DB.java:285-291 | The installed ids are 0, 1, ..., mergeIndex in that order. |
| Compaction.MergeableIsAllButActive | src/main/java/org/wtsm/DB.java:213-215 | The copy loop visits every listed id except the active one. |
| Compaction.CopyPhase | src/main/java/org/wtsm/DB.java:207-267 | The copy phase ends with the merge invariant, and it has opened a merge file exactly when some visited segment had entries. |
| Compaction.Compact | src/main/java/org/wtsm/DB.java:269-271 | When nothing was copied, task leaves the store unchanged. Its only fault is the merge collision with the active id, and that fault also leaves the store unchanged. |
| Compaction.InstallReplaces | src/main/java/org/wtsm/DB.java:285-306 | Installation puts merge file i at data file i and each merged sub-map in index and cache files alike, replacing whatever was there. |
| Compaction.InstallRetiresMergeable | src/main/java/org/wtsm/DB.java:274-292 | Installation removes exactly the mergeable ids from the index, data files and cache files, adds the merged ones, and leaves the list as the merged ids followed by the active id. |
| Compaction.InstallIds | src/main/java/org/wtsm/DB.java:285-291 | With the merged ids below the active one, the new list is the merged ids followed by the active id, and it is ascending. |
| Compaction.InstallKeepsActive | src/main/java/org/wtsm/DB.java:274-292 | The active id keeps its sub-map, its data file and its cache file. |
| Compaction.InstallRetiresAndInstalls | src/main/java/org/wtsm/DB.java:274-306 | A retired id not reused by a merge file has no sub-map, no data file and no cache file. Every merged id carries its merge file, its merged sub-map and a matching cache file. |
| Compaction.InstallKeepsFit | src/main/java/org/wtsm/DB.java:274-306 | When only the active id survives retirement, installing merged sub-maps over merged files keeps every record inside its file. |
| Compaction.InstallConsistent | src/main/java/org/wtsm/DB.java:274-306 | Installing a merge whose ids stay below the active id leaves a consistent store. |
| Compaction.CompactKeepsConsistent | src/main/java/org/wtsm/DB.java:204-313 | task keeps the store consistent, whichever way it ends. |
| Compaction.InstallKeepsActiveLookup | src/main/java/org/wtsm/DB.java:274-292 | A key the active sub-map holds reads, after installation, as it did before. |
| Compaction.InstallLookupMerged | src/main/java/org/wtsm/DB.java:285-292 | A key the active sub-map lacks reads, after installation, as the merged index answers. |
| Compaction.MergeableDecideLookup | src/main/java/org/wtsm/DB.java:213-215 | For a key the active sub-map lacks, the mergeable ids alone decide the read. |
| Compaction.CopyPhaseFindsNewest | src/main/java/org/wtsm/DB.java:214-264 | For a key the active sub-map lacks, the merged index finds the same bytes the store finds. |
| Compaction.CompactPreservesLookup | src/main/java/org/wtsm/DB.java:204-313 | task changes no read: every key reads the same bytes afterwards as before, and the store stays consistent. |
| Restart.PutKeepsSaved | src/main/java/org/wtsm/DB.java:147-157 | Indexing a key and then saving the target's sub-map keeps every indexed entry in its segment's cache file. |
| Restart.PutKeepsStaleSuperseded | src/main/java/org/wtsm/DB.java:193-201 | An old cache file still holds an entry putCacheMap removed only when a higher segment holds that key. |
| Restart.TopHasNoStale | src/main/java/org/wtsm/DB.java:152-157 | The cache file of an id that no sub-map exceeds holds only entries the index holds under that id. |
| Restart.FreshDurable | src/main/java/org/wtsm/DB.java:116-118 | The empty store on first start keeps its cache files in step with its index. |
| Restart.SnapshotsAnswerAlike | src/main/java/org/wtsm/DB.java:325-330 | The cache files alone answer every read as the index does, despite stale entries, because the walk is newest-first. |
| Restart.ReloadPreservesReads | src/main/java/org/wtsm/DB.java:100-118 | Rebuilding the store from its cache files gives a store that answers every read as before and keeps the invariant. |
| Restart.AppendKeepsDurable | src/main/java/org/wtsm/DB.java:121-160 | An append keeps the cache files in step with the index, and the active segment then has a cache file. |
| Restart.InstallKeepsSaved | src/main/java/org/wtsm/DB.java:278-306 | Retiring ids from index and cache files alike, then installing merged sub-maps in both, keeps every indexed entry saved. |
| Restart.InstallKeepsStaleSuperseded | src/main/java/org/wtsm/DB.java:274-306 | When every cache file but the active one's is retired or replaced, no stale entry is left. |
| Restart.InstallKeepsSaves | src/main/java/org/wtsm/DB.java:274-306 | Installation keeps every indexed entry saved, leaves only superseded entries stale, and keeps saved records in bounds. |
| Restart.InstallKeepsDurable | src/main/java/org/wtsm/DB.java:274-306 | Installing a merge below the active id keeps the cache files in step with the index. |
| Restart.CompactKeepsDurable | src/main/java/org/wtsm/DB.java:204-313 | task keeps the cache files in step with the index, whichever way it ends. |
| Restart.WriteKeepsDurable | src/main/java/org/wtsm/DB.java:121-170 | write keeps the cache files in step with the index, so a restart after any sequence of writes reads as before. |
| Findings.WriteWithUtf16Size | src/main/java/org/wtsm/DB.java:141-146 | write with the UTF-16 size agrees with the model's write whenever the entry is ASCII. |
| Findings.Utf16Prefix | src/main/java/org/wtsm/DB.java:146 | What the record as written brackets is a prefix of the entry's bytes, as long as the entry's UTF-16 length. |
| Findings.Utf16SizeTruncates | src/main/java/org/wtsm/DB.java:141-146 | After write as written, read(key) returns only the first UTF-16-length bytes of the entry. That is the whole entry exactly when the entry is ASCII. |
| Findings.AccentedKeyReadsShort | src/main/java/org/wtsm/DB.java:141-146 | The entry `é:;` is 3 UTF-16 units but 4 UTF-8 bytes, so its read after write as written misses the final byte. |
| Findings.TransferTo | src/main/java/org/wtsm/DB.java:236 | One transferTo moves a run of the source starting at the position, at most count bytes and at most what the call manages. It moves at least one byte when there is something to move and it is allowed to. |
| Findings.TransferAsWritten | src/main/java/org/wtsm/DB.java:234-237 | When its calls run to the end, the loop as written copies at least the `size - transfered` bytes still missing and fewer than `size` bytes beyond them. Once `size` bytes have moved it copies nothing. |
| Findings.Transfer | src/main/java/org/wtsm/DB.java:234-237 | When its calls run to the end, the loop as intended copies exactly as many bytes as are still missing. |
| Findings.TransferCopiesRecord | src/main/java/org/wtsm/DB.java:234-237 | With each call asking only for the bytes still missing, the loop copies exactly the record's bytes however the calls split them. |
| Findings.TransferAsWrittenAgreesOnOneCall | src/main/java/org/wtsm/DB.java:234-237 | When the first call moves the whole record, the loop as written copies exactly the record. |
| Findings.PartialTransferOvershoots | src/main/java/org/wtsm/DB.java:236 | A 2-byte record moved one byte and then two: the loop as written copies 3 bytes, the intended loop 2. |
| Findings.RetireStrict | src/main/java/org/wtsm/DB.java:274-284 | Strict retirement never lengthens the list, and raises only on a missing data file or cache file of a listed id. |
| Findings.MoveStrict | src/main/java/org/wtsm/DB.java:285-292 | The moves put ids 0..n-1 in front of the list, or raise on the first target data file that already exists. |
| Findings.Descending | src/main/java/org/wtsm/DB.java:211 | The merged ids are enumerated strictly descending, each exactly once, as the descending TreeMap iterates them. |
| Findings.SaveStrict | src/main/java/org/wtsm/DB.java:294-306 | Creating the merged cache files changes only the cache files, and raises only on one that already exists. |
| Findings.InstallStrict | src/main/java/org/wtsm/DB.java:273-306 | Strict installation prepends the merged ids to what retirement left, and a retirement that raises ends it with that fault and state. |
| Findings.CompactStrict | src/main/java/org/wtsm/DB.java:269-271 | task as written leaves the store unchanged when nothing was copied. |
| Findings.WriteStrict | src/main/java/org/wtsm/DB.java:167-169 | write with task as written agrees with the model's write whenever it does not rotate. It records the entry's UTF-8 byte count, the corrected size of Finding 1, so the findings stay apart. |
| Findings.RetireStrictAgrees | src/main/java/org/wtsm/DB.java:274-284 | With both files of every retired id present, strict retirement raises nothing and removes exactly the retired ids from the list, index, data files and cache files. |
| Findings.MoveStrictAgrees | src/main/java/org/wtsm/DB.java:285-292 | With no data file at the target ids, the strict moves raise nothing and install merge files 0..n-1 and their sub-maps. |
| Findings.SaveStrictAgrees | src/main/java/org/wtsm/DB.java:294-306 | With none of the ids' cache files present, the strict saves raise nothing and store each listed merged sub-map. |
| Findings.StrictRetiresMergeable | src/main/java/org/wtsm/DB.java:274-284 | With both files of every listed id present, strict retirement leaves just the active id with its files. |
| Findings.StrictMoves | src/main/java/org/wtsm/DB.java:285-292 | When every listed id has both its files, no other id has either, and the merged ids stay below the active one, the strict moves meet no data file. |
| Findings.StrictSaves | src/main/java/org/wtsm/DB.java:294-306 | When every listed id has both its files, no other id has either, and the merged ids stay below the active one, the strict saves meet no cache file. |
| Findings.InstallIsMovedAndSaved | src/main/java/org/wtsm/DB.java:273-306 | The model's installation leaves exactly what the strict moves and saves leave. |
| Findings.InstallStrictAgrees | src/main/java/org/wtsm/DB.java:273-306 | When every listed id has both its files, no other id has any, and the merged ids stay below the active one, strict installation raises nothing and equals the model's installation. |
| Findings.CompactStrictAgrees | src/main/java/org/wtsm/DB.java:204-313 | While every listed id has both files and no other id has any, task as written equals the model's task whenever the latter succeeds. |
| Findings.ThreeWritesConsistent | src/main/java/org/wtsm/DB.java:61-63 | The store left by write(name, henry), write(name, list) and write(age, 123) at limit 6 is consistent. |
| Findings.ThreeWritesReadsName | src/main/java/org/wtsm/DB.java:61-64 | In that store, read(name) returns the whole second entry `name:list;`. |
| Findings.RetireStopsAtMissingCacheFile | src/main/java/org/wtsm/DB.java:274-284 | Strict retirement over [0, 1, 2, 3] where id 1 lacks its cache file retires id 0, deletes id 1's data file, then raises and leaves [1, 2, 3]. |
| Findings.RotatingAppend | src/main/java/org/wtsm/DB.java:130-137 | An append to an over-long active segment rotates to the next id at offset 0 without a fault. |
| Findings.FourthWriteRotates | src/main/java/org/wtsm/DB.java:130-137 | A fourth write after the three rotates to segment 3 while id 1 still has its data file but no cache file. |
| Findings.FourthWriteKeepsName | src/main/java/org/wtsm/DB.java:193-201 | After the fourth write's append, only segment 0 holds `name`. |
| Findings.DroppedKeyReadsNothing | src/main/java/org/wtsm/DB.java:279 | Dropping the only sub-map that holds a key leaves nothing to read for it. |
| Findings.FirstSegmentCopied | src/main/java/org/wtsm/DB.java:214-229 | When the first listed id is mergeable with a non-empty sub-map and a data file, the copy phase opens a merge file. |
| Findings.FourthWriteCopies | src/main/java/org/wtsm/DB.java:214-229 | The fourth write's compaction copies something, so it goes on to retirement. |
| Findings.WriteStrictCompacts | src/main/java/org/wtsm/DB.java:167-169 | After a rotating append that raised nothing and copied something, write as written runs the strict installation. |
| Findings.StrictCompactionLosesKeyFor | src/main/java/org/wtsm/DB.java:274-284 | For any entries with an age entry longer than the limit, the fourth write as written raises on id 1's missing cache file, leaves [1, 2, 3], and `name` reads nothing. |
| Findings.StrictCompactionLosesKey | src/main/java/org/wtsm/DB.java:248-284 | The concrete trace at limit 6: writes of name/henry, name/list, age/123 and x/y lose the live key `name`. |
| Findings.ModelCompactionKeepsKey | src/main/java/org/wtsm/DB.java:121-170 | The same fourth write under the model's compaction still reads `name` as `name:list;`. |
| Findings.FirstWrite | src/main/java/org/wtsm/DB.java:121-157 | On a fresh store, write(name, v) creates segment 0, appends the entry at offset 0 without rotating, indexes `name` there and saves that sub-map. Write as written gives the same store and raises nothing. |
| Findings.SecondAppend | src/main/java/org/wtsm/DB.java:121-157 | Once segment 0 is past the limit, the append of a second `name` entry rotates to segment 1 at offset 0. It drops `name` from segment 0's sub-map but not from segment 0's cache file. |
| Findings.TwoWritesNothingToCopy | src/main/java/org/wtsm/DB.java:214-221 | After that append, segment 0's sub-map is empty, so the copy loop visits nothing. |
| Findings.SecondWrite | src/main/java/org/wtsm/DB.java:121-170 | The second write rotates, and its task copies nothing and leaves the store as the append left it. The as-written task and the model's task agree. |
| Findings.ThirdAppend | src/main/java/org/wtsm/DB.java:121-157 | The append of `age` rotates to segment 2 at offset 0 and indexes it there, leaving segment 1's `name` entry in place. |
| Findings.CopyOneLarge | src/main/java/org/wtsm/DB.java:223-254 | A single copied entry longer than the limit fills merge file 0 at offset 0, records it there, and opens an empty merge file 1. |
| Findings.ThirdItems | src/main/java/org/wtsm/DB.java:214-229 | Before the third write's task, the store is well formed and the copy loop visits only segment 1's `name` entry, with the whole of segment 1's bytes. |
| Findings.ThirdCopy | src/main/java/org/wtsm/DB.java:214-254 | The third write's copy phase yields merge files [`name:list;`, empty], with `name` recorded at offset 0 of merge file 0. |
| Findings.ThirdInstalled | src/main/java/org/wtsm/DB.java:273-306 | Installing that merge retires segments 0 and 1 and leaves the list [0, 1, 2]: `name` in 0, an empty id 1 with no sub-map or cache file, and `age` in 2. |
| Findings.ThirdInstall | src/main/java/org/wtsm/DB.java:273-306 | Strict installation of that merge raises nothing and leaves the same store. |
| Findings.ThirdWrite | src/main/java/org/wtsm/DB.java:121-170 | The third write, as written and as modelled, leaves exactly the store the three-write state describes. |
| Findings.TraceEntriesRotate | src/main/java/org/wtsm/DB.java:122 | The entries `name:henry;`, `name:list;` and `age:123;` are longer than the limit 6, so each fills its segment past the limit. |
| Findings.ThreeWritesFromFresh | src/main/java/org/wtsm/DB.java:59-63 | Starting from a fresh store, write(name, henry), write(name, list) and write(age, 123) raise nothing, as written or as modelled. Each leaves a well-formed store, and the three together leave the three-write state. |
| Findings.StrictTraceLosesName | src/main/java/org/wtsm/DB.java:59-63 | From a fresh store, the three writes and then write(x, y), all as written: the fourth raises on segment 1's missing cache file, and read(name) then finds nothing. |
| Findings.ModelTraceKeepsName | src/main/java/org/wtsm/DB.java:59-64 | The same four writes with the model's task: the first three raise nothing, and read(name) still returns `name:list;`. |
| Findings.OneKeySegment | src/main/java/org/wtsm/DB.java:214-233 | A segment whose sub-map holds one key, recorded over its whole data file, yields exactly that entry to the copy loop. |
| Findings.CollisionAppend | src/main/java/org/wtsm/DB.java:121-157 | After write(name, henry) with an entry longer than the limit, the append of `age` rotates to segment 1 at offset 0 and indexes it there. |
| Findings.CollisionCopy | src/main/java/org/wtsm/DB.java:214-254 | That write's copy loop copies segment 0's `name` entry into merge file 0 and opens an empty merge file 1. |
| Findings.CollisionInstallStrict | src/main/java/org/wtsm/DB.java:273-292 | Strict installation of that merge retires segment 0, then raises on moving merge file 1 onto segment 1's data file. Only segment 1 is left. |
| Findings.CollisionRetiredLosesName | src/main/java/org/wtsm/DB.java:322-333 | In what the strict installation leaves, read(name) finds nothing. |
| Findings.StrictCollisionFor | src/main/java/org/wtsm/DB.java:121-170 | For any over-long `name` entry and any value, write(age, value) as written raises `SegmentExists(1)` and leaves only segment 1. |
| Findings.ModelCollisionFor | src/main/java/org/wtsm/DB.java:121-170 | The same write with the model's task raises the merge collision of ids 1 and 1 and keeps the append's store. |
| Findings.CollisionAppendedReads | src/main/java/org/wtsm/DB.java:322-344 | In the append's store, read(name) and read(age) return their whole entries. |
| Findings.StrictCollisionLosesName | src/main/java/org/wtsm/DB.java:121-170 | From a fresh store at limit 6, write(name, henry) raises nothing, and write(age, 123) as written raises `SegmentExists(1)`, leaves the list [1], and read(name) then finds nothing. |
| Findings.ModelCollisionKeepsName | src/main/java/org/wtsm/DB.java:121-170 | The same two writes with the model's task: the second raises the merge collision, and read(name) and read(age) still return `name:henry;` and `age:123;`. |
| Findings.ThreeWritesDurable | src/main/java/org/wtsm/DB.java:147-157 | The three writes leave cache files in step with the index. |
| Findings.ReloadThreeWrites | src/main/java/org/wtsm/DB.java:100-118 | A restart after the three writes lists only ids 0 and 2, keeps id 1's empty data file, and rebuilds a consistent store. |
| Findings.RotatingAppendIs | src/main/java/org/wtsm/DB.java:130-157 | An append that rotates onto a free id writes the entry there at offset 0, indexes it there, and saves that sub-map to its cache file. |
| Findings.RestartPut | src/main/java/org/wtsm/DB.java:193-201 | Indexing `name` in segment 3 of the restarted store takes it out of segment 0's sub-map and leaves segment 2's alone. |
| Findings.RestartAppend | src/main/java/org/wtsm/DB.java:121-157 | On the restarted store, the append of `name` rotates to segment 3 without a fault. |
| Findings.RestartCopy | src/main/java/org/wtsm/DB.java:214-254 | Its copy loop skips the emptied segment 0 and copies segment 2's `age` entry into merge file 0, opening an empty merge file 1. |
| Findings.RestartRetireStrict | src/main/java/org/wtsm/DB.java:274-284 | Strict retirement through id 2 finds both files of ids 0 and 2 and retires them. |
| Findings.RestartRetiredLosesAge | src/main/java/org/wtsm/DB.java:274-284 | After that retirement only segment 3 is listed, id 1's data file is still there, and read(age) finds nothing. |
| Findings.RestartInstallStrict | src/main/java/org/wtsm/DB.java:273-292 | Strict installation then raises `SegmentExists(1)` on moving merge file 1 onto id 1's stray data file. |
| Findings.RestartStrictFor | src/main/java/org/wtsm/DB.java:121-170 | For any entries with an over-long `age`, write(name, value) as written on the restarted store raises `SegmentExists(1)` after retiring ids 0 and 2. |
| Findings.RestartStrictLosesAge | src/main/java/org/wtsm/DB.java:100-170 | After the three writes and a restart, the list is [0, 2]. write(name, henry) as written raises `SegmentExists(1)`, leaves the list [3], and read(age) then finds nothing. |
| Findings.ThreeWritesReadsAge | src/main/java/org/wtsm/DB.java:322-344 | After the three writes, read(age) returns the whole entry. |
| Findings.RestartModelKeepsAge | src/main/java/org/wtsm/DB.java:100-170 | The same restart and write with the model's task: read(age) still returns `age:123;` and read(name) returns `name:henry;`. |

## Left out

- Codec.Utf8: keys and values are strings of Unicode scalar values. A Java string holding an unpaired UTF-16 surrogate, which `length()` counts as one unit and `getBytes(UTF_8)` writes as the single byte `?`, is not represented.
- Codec.Utf16LengthVersusUtf8: holds only for such strings. For a Java string with an unpaired surrogate the recorded size and the bytes appended are both one per surrogate, so they can agree on a non-ASCII entry.
- File I/O is modelled, not performed. Files are byte sequences. Directory creation, `FileChannel`, `FileInputStream` and `Files.move` become map updates. The read loop is an exact slice.
- Serialisation of the cache files with fastjson (lines 107, 157, 302) is left out. A cache file is an exact copy of the sub-map it saves.
- Line 157 writes a cache file with `WRITE` and no `TRUNCATE_EXISTING`, so a shorter sub-map can leave old JSON behind. This is a byte-level serialisation issue and is not modelled.
- `initPro`, `main`, `getBaseDataFileName` and `getBaseCacheFileName` are path and classpath glue and are left out. `Init` takes the cache files it would find as a parameter.
- src/main/java/org/wtsm/DBProperties.java is configuration loading that `DB` does not use, and is not part of this model.
- Concurrency is left out: the `synchronized` on `createFile` and the commented-out thread pool. The model is single-threaded, as the code that runs is.
- The model does not decode the returned bytes with the platform charset (`new String(b)`). read returns the bytes.
- `FILE_MAX_LENGTH` is the parameter `limit` of every operation. Its source value 6 is `Db.FileMaxLength`, and the concrete trace uses it.
- Java `int`/`long` overflow of ids, offsets and sizes is not modelled. All are unbounded naturals.
- The order in which a sub-map (a `HashMap`) yields its entries during compaction is replaced by ascending lexicographic key order (`Ordering.SortedKeys`). The lookup results do not depend on this order: a key occurs once per sub-map.
- An `IOException` during the copy loop (lines 257-262) is not modelled. No file operation in the copy phase can fail in the model.
- Files left in the merge directory by an earlier failed compaction are not modelled. Merge files start empty.
- Compaction.Compact: the source installs merged ids without checking that they stay below the active id. They reach it as early as the second write after a fresh start, when the first entry is longer than the limit. `Files.move` then raises only after retirement has already happened, and the copied keys are lost (Finding 4). The model's task checks first and raises `MergeCollision` with the store unchanged. `Findings.MoveStrict` models the as-written move, which raises `SegmentExists`.
- Compaction.Install: the moves and the cache-file saves replace whatever data file or cache file is already at a merged id. The source's `Files.move` (line 287) and `Files.createFile` (line 297) raise there instead, after retirement. A data file the id list no longer names, such as an empty trailing merge file that lost its id at a restart, is such a file (Finding 5). `Findings.InstallStrict` models the raising behaviour.
- Compaction.InstallReplaces: states the installation as a replacing one: a data file or cache file already at a merged id is overwritten. The source's `Files.move` (line 287) and `Files.createFile` (line 297) raise instead when such a file exists; Findings 4 and 5 model that strict behaviour.
- Compaction.InstallRetiresMergeable: states what installation leaves when it replaces existing files. It does not promise that the source's moves and saves succeed; they raise when a merged id already has a data file or cache file (see Compaction.Install).
- Compaction.InstallRetiresAndInstalls: likewise states the replacing installation. Where a merged id already has a data file or cache file, the source raises instead (see Compaction.Install).
- Compaction.CopyPhase: copies each record's bytes as an exact slice instead of running the transfer loop, which Finding 2 shows can overshoot.
- Db.Read: requires the newest record to lie inside its data file (`Readable`, which every consistent store satisfies). Past the end of the file, each `read` returns the -1 of end-of-stream and the loop adds it, so `readSize` falls until it is negative. The next `read(b, readSize, ...)` (line 342) then throws `IndexOutOfBoundsException`. The model does not represent that failure.
- Db.Write: records the entry's UTF-8 byte count as its size, not the UTF-16 length the source records. Finding 1 covers this.

## Findings

| source | as written | input that shows it | evidently intended | confidence | as-written member | corrected member |
|---|---|---|---|---|---|---|
| src/main/java/org/wtsm/DB.java:141-146 | The record's size is `bytes.length()`, the entry's length in UTF-16 units. The file receives its UTF-8 bytes. | write("é", "") appends the 4 bytes of `é:;` but records size 3, so read("é") returns 3 bytes without the `;` | The size is the number of bytes appended, so read returns the whole entry for any text | not executed | Findings.AccentedKeyReadsShort | Db.WriteThenRead |
| src/main/java/org/wtsm/DB.java:234-237 | Every `transferTo` call asks for `size` bytes, not for the `size - transfered` still missing. | A 2-byte record at offset 0 of [1, 2, 3, 4, 5] whose first call moves 1 byte and second call moves 2: three bytes [1, 2, 3] are copied | Each call asks only for the missing bytes, so exactly the record is copied | not executed | Findings.PartialTransferOvershoots | Findings.TransferCopiesRecord |
| src/main/java/org/wtsm/DB.java:248-284 | A merge file that grows past the limit with its last entry opens an empty merge file. That file is installed as a segment with no sub-map and no cache file. The next task deletes cache files strictly and raises midway, after earlier ids were retired. | Limit 6: write(name, henry), write(name, list), write(age, 123), write(x, y); then read(name) returns nothing | Retirement never stops midway, so every live key keeps its bytes | not executed | Findings.StrictTraceLosesName | Findings.ModelTraceKeepsName |
| src/main/java/org/wtsm/DB.java:285-292 | The moves run after retirement and do not check that merged ids stay below the active id. When the last merge file's id already has a data file, `Files.move` raises with the old ids already retired. | Limit 6, fresh store: write(name, henry), then write(age, 123). The second write copies `name` into merge files 0 and 1, retires segment 0, and raises moving onto segment 1. read(name) then returns nothing | A merge that would reach the active id is refused before anything is retired, so every key keeps its bytes | not executed | Findings.StrictCollisionLosesName | Findings.ModelCollisionKeepsName |
| src/main/java/org/wtsm/DB.java:285-292 | Start-up (lines 111-118) lists only the ids that have cache files. The empty trailing merge file from Finding 3 has a data file but no cache file, so after a restart it is unlisted but still on disk. A later task's move onto it raises after retirement. | Limit 6: write(name, henry), write(name, list), write(age, 123), restart, then write(name, henry). Its compaction retires ids 0 and 2 and raises moving merge file 1 onto data file 1. read(age) then returns nothing | Installation never meets a stray data file, so every live key keeps its bytes | not executed | Findings.RestartStrictLosesAge | Findings.RestartModelKeepsAge |
