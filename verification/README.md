# Godis, modelled in Dafny

Godis is a Redis server in Go. This project models the parts of it that are hardest to get right and proves what they are for.

| files | what they model |
|---|---|
| `Ordering`, `Border`, `SkipLinks`, `SkipRuns`, `SkipList`, `SortedSet` | the skip list whose links carry rank spans, on heap nodes, and the sorted set that keeps it beside a dict |
| `QuickList` | the paged list and its iterator |
| `Database`, `Effect`, `Marshal`, `Undo`, `Rollback`, `Transaction`, `Watch` | 25 commands on strings, lists, hashes, sets, sorted sets and expiries, and what a reader finds after each; their undo logs; MULTI/EXEC and WATCH |
| `Expiry`, `Aof` | what commands do at times between which expiries pass; the append-only file and its rewriting beside live appends |
| `Locks`, `Scan`, `TimeWheel` | shard locking, SCAN and the time wheel |
| `Fsm`, `FsmEffect`, `Tcc`, `TccUndo` | the cluster metadata, the try-commit-cancel coordinator and its undo logs |
| `Resp`, `Wire`, `Replication`, `Replica`, `Geohash` | the wire format (RESP2 of the Redis serialization protocol specification), the replication offset that rests on it, the databases of a slave, and geohash bisection |
| `Sequences`, `Arithmetic`, `Numerals` | what the others share |

Code that changes things step by step is modelled by classes and methods with loops. Each is proved against a function of the values it works on, and the properties are lemmas about that function. Protocols with several parties (lock clients, coordinators) are state machines, and their properties hold in every state of every run.

Some things the code does are not what its comments or tests suggest. The model does what the code does, and the lemmas say exactly when the expected property holds:

- The rollback of a transaction restores all data, but an expiry is lost when a pop, HDEL or SREM took the last element out of a collection (`Rollbacks.RollbackRestores`, `Rollbacks.ExpiryLost`), and the key is lost when an EXPIRE of the queue has passed by then (`Rollbacks.ExpiryUndoneInTime`). A panic in a queue is not rolled back (`Rollbacks.CrashIsPartial`).
- WATCH does not notice that a key was renamed away, or removed after its expiry (`Watching.WatchDetects`, `Watching.GoesUnseen`).
- RENAME of a key to itself deletes it and leaves its expiry behind (`AppendOnlyFiles.SelfRename`), which a rewrite of the append-only file loses (`AppendOnlyFiles.DumpDB`), and the destination of a RENAME keeps an old expiry if the source has none (`AppendOnlyFiles.RenameExpiry`).
- `Keys`, and so a SCAN that is answered at once, loses keys if the dict grows by two or more while it walks (`DictScans.KeysComplete`, `DictScans.ScanMisses`).
- `isIntersected` looks at the stored value of an infinite border, and an offset is walked without looking at the borders (`SortedSets.SortedSet.Range`, `SortedSets.InfinityCrosses`, `SortedSets.OffsetLandsBehind`).
- `getRank` takes the header for an element whose member is empty (`SkipLists.SkipList.GetRank`, `SkipLists.EmptyMemberOverlooked`).
- Replaying the append-only file looks keys up at the time of the replay. A key whose expiry was extended or removed in time is deleted when the file is replayed after the first expiry, unless the file was rewritten in between (`AppendOnlyFiles.RewriteRescues`, `AppendOnlyFiles.RewriteTells`).
- A rewrite that starts on an empty file dumps all that is there by then, and copies it once more (`AppendOnlyFiles.Persister.FinishRewrite`, `AppendOnlyFiles.RewriteOfEmptyFile`).
- The rollback of a cluster transaction runs undo logs backwards, so that the DEL of each key comes last (`TccUndoing.RollbackBackwards`), and two coordinators can wait for each other (`TryCommitCancel.Deadlock`).
- A slave starts every connection in database 0, whatever database the master is writing to (`Replicas.FollowsMaster`, `Replicas.WritesElsewhere`).
- `removeSlots` in a failover shrinks the list it ranges over, so the old master keeps every second slot in its list (`ClusterFsm.SweepLeaves`, `ClusterFsm.FailoverInverse`).
- A nil argument is read back as an empty one by the stream parser (`Resp.ParsersAgree`), and the replication offset counts it as such (`Replication.CountsBytesSent`).
- `toRange` wraps the upper bound of the last cell to 0 (`Geohash.RangeHolds`, `Geohash.CornerMissed`).

Inputs the code cannot control are parameters: the random height of a node, the capacity `append` chooses, the order in which a map is walked, the clock, what a remote node answers. Preconditions that say a list is not empty or a bound is in range stand where the source panics otherwise.

## Model

| member | source | states |
|---|---|---|
| `Ordering.SortedUnique` | datastruct/sortedset/skiplist.go:78-83 | There is one sorted listing of a set of (member, score) pairs, so the base list of the skip list is determined by its contents |
| `Ordering.LessMeans` | datastruct/sortedset/skiplist.go:78-83 | A string comes before another if and only if it is a proper prefix of it, or has the smaller character where the two first differ |
| `Ordering.SortedMeans` | datastruct/sortedset/skiplist.go:78-83 | In a sorted list scores do not fall, and members of one score stand in the order of their characters |
| `Borders.ScoreBordersAgree` | datastruct/sortedset/border.go:40-64 | What lies below a score border comes first in the list and what lies above one comes last, for all score borders: infinite, open or closed |
| `Borders.LexBordersAgree` | datastruct/sortedset/border.go:127-151 | The same for lex borders, on the condition the commands document: all elements have the same score |
| `Borders.BetweenIsSlice` | datastruct/sortedset/skiplist.go:242-277 | Then the elements between two borders are one stretch of the list |
| `Borders.BorderMeans` | datastruct/sortedset/border.go:40-64 | What each border lets through: what is beyond its value, and its value unless that is left out; everything or nothing if it is infinite |
| `Borders.BetweenMeans` | datastruct/sortedset/border.go:127-151 | An element is between two borders if and only if it is in the list and within both |
| `Borders.CrossedMeans` | datastruct/sortedset/border.go:113-117 | When two borders look crossed: an infinite one counts as 0 or as the empty string, and "+" as a lower end always does |
| `SkipLinks.LevelInserted` | datastruct/sortedset/skiplist.go:101-113 | One level of an insertion: if the level was linked in order with true rank spans, it is so with the new node in it, whether the node reaches the level or is passed over |
| `SkipLinks.LevelRemoved` | datastruct/sortedset/skiplist.go:135-142 | One level of a removal: the level stays linked in order with true rank spans |
| `SkipLinks.TopLevel` | datastruct/sortedset/skiplist.go:148-150 | A level that has become empty may be dropped, and once the top level is not empty the recorded level is exact |
| `SkipLists.SkipList.constructor` | datastruct/sortedset/skiplist.go:51-56 | An empty list that meets the invariant |
| `SkipLists.SkipList.Insert` | datastruct/sortedset/skiplist.go:64-128 | For any height from 1 to 16: every level is again the chain of the nodes tall enough for it, every span is the distance in rank (the number of nodes behind it where there is no next one), backward links, tail, length and level are exact, the base list is strictly sorted, and its contents are the old ones and the new element |
| `SkipLists.SkipList.RemoveNode` | datastruct/sortedset/skiplist.go:134-152 | The same invariant without the node, and the other nodes in their places |
| `SkipLists.SkipList.Remove` | datastruct/sortedset/skiplist.go:157-180 | Finds the element if and only if it is there and removes exactly it |
| `SkipLists.SkipList.GetRank` | datastruct/sortedset/skiplist.go:185-203 | The rank of the node with that member which the walk can see: it comes no later than the element and is taller than all nodes between them; 0 if there is none, or if the member is empty and no node as tall as the list comes no later, because the walk then takes the header for it |
| `SkipLists.SkipList.InOwnSight` | datastruct/sortedset/skiplist.go:185-203 | An element of the list is seen at its own position in sorted order, and no other node with its member is |
| `SkipLists.SkipList.RanksInverse` | datastruct/sortedset/skiplist.go:185-222 | Rank and place are inverse: the element at place r is e if and only if the rank of e is r |
| `SkipLists.EmptyMemberOverlooked` | datastruct/sortedset/skiplist.go:198-200 | A list, built by two insertions, in which an element with an empty member is there and has no rank |
| `SkipLists.SkipList.GetByRank` | datastruct/sortedset/skiplist.go:208-222 | The node at that position; nil outside the list |
| `SkipLists.SkipList.HasInRange` | datastruct/sortedset/skiplist.go:224-240 | Whether the range can hold anything, judged as the source does: borders not crossed, something at or above the lower one and something at or below the upper one |
| `SkipLists.SkipList.GetFirstInRange` | datastruct/sortedset/skiplist.go:242-260 | The first node between the borders, nil if there is none or the borders count as crossed |
| `SkipLists.SkipList.GetLastInRange` | datastruct/sortedset/skiplist.go:262-277 | The last such node |
| `SkipLists.SkipList.RemoveRange` | datastruct/sortedset/skiplist.go:282-315 | Returns and removes exactly the elements between the borders, in order, at most `limit` of them if that is positive |
| `SkipLists.SkipList.RemoveRangeByRank` | datastruct/sortedset/skiplist.go:318-346 | Returns and removes exactly the elements with these ranks, for bounds in any relation to the list |
| `SkipRuns.FinishBetween` | datastruct/sortedset/skiplist.go:300-314 | The removing loop, told as a recursion over a sorted sequence, takes the filtered range up to the limit and leaves a sorted rest |
| `SkipRuns.FinishByRank` | datastruct/sortedset/skiplist.go:333-345 | The same for the loop over ranks |
| `SortedSets.CrossedIsEmpty` | datastruct/sortedset/border.go:112-200 | Finite borders, of either kind, count as crossed only when nothing can lie between them |
| `SortedSets.RangeVerdict` | datastruct/sortedset/sortedset.go:154-191 | What the walk of ForEach yields equals the filtered range cut by offset and limit if and only if the borders are not wrongly taken for crossed and the offset does not skip past the range onto an existing element |
| `SortedSets.BlindMeans` | datastruct/sortedset/border.go:196-200 | Where elements lie between the borders, they look crossed if and only if one end is unbounded and the other lies beyond 0; for members, if the lower end is any but the empty string in front of "+", or the upper end leaves out the empty string |
| `SortedSets.AstrayMeans` | datastruct/sortedset/sortedset.go:154-206 | So Range gives the cut range if and only if that is not so and the offset does not lead past the range to another element |
| `SortedSets.CutMeans` | datastruct/sortedset/sortedset.go:154-206 | Offset and limit: the elements from the offset on, as many as the limit if that is positive |
| `SortedSets.RanksMean` | datastruct/sortedset/skiplist.go:318-346 | The elements of a range of ranks: those whose place, counted from 1, is at least the first bound and below the second |
| `SortedSets.SortedSet.Add` | datastruct/sortedset/sortedset.go:24-39 | Dict and skip list hold the same pairs afterwards, those before with the member set to the new score |
| `SortedSets.SortedSet.Remove` | datastruct/sortedset/sortedset.go:56-64 | The same without the member |
| `SortedSets.SortedSet.GetRank` | datastruct/sortedset/sortedset.go:67-79 | The index of the member in ascending or descending order, -1 if it is missing; the exact outcome for the empty member too |
| `SortedSets.RanksMirror` | datastruct/sortedset/sortedset.go:67-79 | The ascending and the descending rank of an element add up to the length less one |
| `SortedSets.SortedSet.RangeByRank` | datastruct/sortedset/sortedset.go:82-129 | The elements from `start` up to `stop` of the sorted sequence, or of its reverse |
| `SortedSets.SortedSet.RangeCount` | datastruct/sortedset/sortedset.go:132-151 | The size of the filtered range |
| `SortedSets.SortedSet.ForEach` | datastruct/sortedset/sortedset.go:154-191 | Visits the stretch that RangeResult describes |
| `SortedSets.SortedSet.Range` | datastruct/sortedset/sortedset.go:195-205 | The filtered range, reversed if descending, cut by offset and limit: if and only if not (the borders count as crossed though the range is not empty, or the offset passes the range and lands on an element) |
| `SortedSets.InfinityCrosses` | datastruct/sortedset/border.go:112-116 | A range of all scores up to -5 that holds -7 and of which Range gives nothing |
| `SortedSets.OffsetLandsBehind` | datastruct/sortedset/sortedset.go:163-170 | An offset behind a range of one element, with which Range gives the next element |
| `SortedSets.SortedSet.RemoveRange` | datastruct/sortedset/sortedset.go:208-214 | Removes exactly the filtered range from both structures and returns its size |
| `SortedSets.SortedSet.PopMin` | datastruct/sortedset/sortedset.go:216-230 | Returns and removes the `count` smallest elements, all of them if `count` is not positive |
| `SortedSets.SortedSet.RemoveByRank` | datastruct/sortedset/sortedset.go:234-240 | Removes exactly the elements with these ranks from both structures |
| `QuickLists.QuickList.Add` | datastruct/list/quicklist.go:30-50 | For any page layout and capacities the list of all elements, page after page, gets the value at its end |
| `QuickLists.QuickList.Find` | datastruct/list/quicklist.go:53-95 | Searching from either end leads to the page and offset of the index |
| `QuickLists.QuickList.Get` | datastruct/list/quicklist.go:163-166 | The element at the index of the flat list |
| `QuickLists.QuickList.Set` | datastruct/list/quicklist.go:174-177 | Replaces that element and no other |
| `QuickLists.QuickList.Insert` | datastruct/list/quicklist.go:179-210 | Puts the value in at the index of the flat list, also when a full page is split, whatever capacity append chooses |
| `QuickLists.QuickList.RemoveLast` | datastruct/list/quicklist.go:264-279 | Takes the last element off the flat list, nil on an empty one |
| `QuickLists.QuickList.RemoveAt` | datastruct/list/quicklist.go:253-256 | Takes out the element at the index |
| `QuickLists.QuickList.RemoveByVal` | datastruct/list/quicklist.go:298-316 | Terminates and leaves the flat list without its first `count` expected elements |
| `QuickLists.QuickList.RemoveAllByVal` | datastruct/list/quicklist.go:282-294 | Terminates and leaves the flat list without all expected elements |
| `QuickLists.QuickList.ReverseRemoveByVal` | datastruct/list/quicklist.go:318-335 | Terminates and leaves the flat list without its last `count` expected elements |
| `QuickLists.QuickList.Contains` | datastruct/list/quicklist.go:360-370 | True if and only if some element is expected |
| `QuickLists.QuickList.Range` | datastruct/list/quicklist.go:373-390 | The slice of the flat list |
| `QuickLists.Iterator.Next` | datastruct/list/quicklist.go:106-121 | One position further in the flat list, across pages, and true just if there is an element |
| `QuickLists.Iterator.Prev` | datastruct/list/quicklist.go:124-139 | One position back |
| `QuickLists.Iterator.AtEnd` | datastruct/list/quicklist.go:141-150 | True if and only if the iterator is past the last element, also on an empty list |
| `QuickLists.Iterator.AtBegin` | datastruct/list/quicklist.go:152-160 | True if and only if it is before the first one or the list is empty |
| `QuickLists.Iterator.Remove` | datastruct/list/quicklist.go:212-250 | Removes the element it stands at and then stands at its successor: within the page, on the next page when the page is emptied or ends, or past the end |
| `QuickLists.DropFirstCounts` | datastruct/list/quicklist.go:298-316 | `count` of the expected elements are gone, or all there were |
| `QuickLists.DropFirstKeeps` | datastruct/list/quicklist.go:298-316 | The other elements stay in order, and of the expected ones the last ones stay |
| `QuickLists.DropAllFilters` | datastruct/list/quicklist.go:282-294 | Without a limit exactly the elements that are not expected stay, in order |
| `QuickLists.DropLastMirrors` | datastruct/list/quicklist.go:318-335 | Removing from the right is removing from the left in the reversed list |
| `Numerals.ParseFormat` | database/keys.go:346-355 | A 64-bit number written in decimal is read back, so an expiry survives being written into a command |
| `Numerals.NumeralBytes` | aof/marshal.go:111-118 | The bytes of a numeral: 48 to 57 for the digits, the highest first, after a 45 for a minus sign |
| `Numerals.NumeralRead` | redis/parser/parser.go:103-103 | What is read as a number after a sign: decimal digits, with a result of 64 bits |
| `Numerals.UnsignedRead` | redis/parser/parser.go:103-103 | And without a sign |
| `Marshalling.Rebuilds` | aof/marshal.go:16-118 | Executed where the key is absent, the command EntityToCmd makes of an entity that is not empty rebuilds it and touches no other key, for every iteration order |
| `Marshalling.EntityToCmd` | aof/marshal.go:16-34 | The command lists the entity completely and nothing twice; it panics just on an empty sorted set |
| `Marshalling.SetToCmd` | aof/marshal.go:62-73 | SADD with each member once |
| `Marshalling.HashToCmd` | aof/marshal.go:77-90 | HMSET with each field once and its value |
| `Marshalling.ZSetToCmd` | aof/marshal.go:94-107 | ZADD with each member once and its score |
| `Undoing.RestoreKeys` | database/tx_utils.go:45-62 | Run on any later state, the log of rollbackGivenKeys gives these keys the values and expiries they had when it was taken, and leaves every other key alone |
| `Undoing.UndonePush` | database/list.go:194-202 | As many pops as values were pushed restore the list, and remove the key if the push created it |
| `Undoing.UndonePop` | database/list.go:137-172 | One push restores the popped elements in order; the expiry is lost just if the pop took the last one |
| `Undoing.UndoneRPopLPush` | database/list.go:515-536 | Both lists are restored, also when they are the same; the expiry of the source is lost just if it was emptied |
| `Undoing.UndoneLSet` | database/list.go:361-392 | The old element is back |
| `Undoing.UndoneHMSet` | database/hash.go:241-249 | Every field is back as it was, with fields named twice, and a key that was created is gone |
| `Undoing.UndoneHDel` | database/hash.go:164-172 | Every field is back, also when the hash was emptied and removed; then an expiry is lost |
| `Undoing.UndoneSAdd` | database/tx_utils.go:110-146 | The members are those there were |
| `Undoing.UndoneSRem` | database/tx_utils.go:110-146 | The members are back, also when the set was emptied and removed; then an expiry is lost |
| `Undoing.UndoneZAdd` | database/sortedset.go:81-89 | The old scores are back and the new members gone |
| `Undoing.UndoneZIncrBy` | database/sortedset.go:619-623 | The old score is back, or the member gone |
| `Undoing.UndoneZRem` | database/sortedset.go:580-588 | The removed scores are back, also when the sorted set was left empty |
| `Rollbacks.UndoRestores` | database/transaction.go:153-164 | The log of any of the 25 commands, run in any state with the data the command left, restores the data exactly; and it says which expiries are missing afterwards: that of a list, hash or set the command took the last element out of, and those that were missing before, unless the log sets them itself |
| `Rollbacks.StepKeeps` | database/database.go:128-139 | Every command keeps the states free of empty lists, hashes and sets, and free of expiries that have passed, if the one it sets has not |
| `Rollbacks.FailureChangesNothing` | database/transaction.go:109-127 | A command that answers with an error has changed nothing, so only the commands before it need undoing |
| `Rollbacks.PanicChangesNothing` | database/transaction.go:109-127 | Nor has a command that panics |
| `Rollbacks.RollbackRestoresData` | database/transaction.go:109-139 | For every queue and every position at which it fails, running the logs, the newest command first, each from head to tail, restores every key and its value |
| `Rollbacks.RollbackRestoresTtl` | database/transaction.go:109-139 | And the expiries, with exactly the keys of LostTtls losing theirs: those from which a command of the queue took the last element, unless the log of an earlier command sets the expiry again |
| `Rollbacks.RollbackRestores` | database/transaction.go:109-139 | Where only existing keys have an expiry, the state after the rollback is the state before EXEC without these expiries; it is the same state if and only if there are none, as when no command emptied a collection with an expiry |
| `Rollbacks.ExpiryLost` | database/transaction.go:109-139 | A queue whose rollback loses an expiry: LPOP of the only element, then a failure |
| `Rollbacks.ExpiryUndoneInTime` | database/keys.go:357-362 | The log of EXPIRE and its variants restores the key if and only if the expiry it set has not passed by the time of the rollback |
| `Rollbacks.CrashIsPartial` | database/transaction.go:109-139 | A queue that panics leaves exactly what some commands at its beginning did: nothing is rolled back |
| `Rollbacks.UndoNeverPanics` | database/transaction.go:128-139 | No command of an undo log panics while the rollback runs it |
| `Rollbacks.QueueCommits` | database/transaction.go:108-125 | In a state in which nothing expires, EXEC commits if and only if every command succeeds and no undo log panics, and leaves the state after all commands in turn |
| `Rollbacks.QueueAborts` | database/transaction.go:108-125 | And it rolls back if and only if some command is answered with an error, those before it having succeeded |
| `Rollbacks.SweptAllMeans` | database/tx_utils.go:45-62 | Taking a log removes the expired keys it looks up, and no others, up to one that cannot be written down |
| `Undoing.PanicsMean` | database/list.go:137-172 | Exactly when taking a log panics: an empty sorted set that is to be written down, or a count below 0, for RPOP below 1 |
| `Transactions.DB.GetEntity` | database/database.go:152-162 | Finds the entity unless the key has expired, and removes an expired one |
| `Transactions.DB.IsExpired` | database/database.go:275-286 | True just if the recorded time has passed, and then the key is gone |
| `Transactions.DB.Removes` | database/database.go:207-217 | Removes the keys and counts those that were there, each once |
| `Transactions.DB.AddVersion` | database/database.go:290-295 | Each announced key counts one up per announcement, modulo 2^32 |
| `Transactions.ParseOptions` | database/string.go:130-180 | The policy and expiry the option words of SET amount to, or a syntax error |
| `Effects.SetMeans` | database/string.go:123-216 | After SET with any list of options: NX stores only an absent key, XX only a present one, EX adds 1000 n milliseconds to the time and PX n, and without them the expiry is gone; NX with XX, or two expiries, are refused; every other key is as it was |
| `Effects.OptionsMean` | database/string.go:130-180 | The option words are read as the options they spell, in any number and order |
| `Effects.SetRefuses` | database/string.go:130-180 | Words that spell no options are refused, and nothing changes |
| `Effects.IncrMeans` | database/string.go:418-441 | After INCR the number read back is one more, modulo 2^64, or 1 if there was none, and the expiry is kept; anything but an integer is refused |
| `Effects.AppendMeans` | database/string.go:580-592 | After APPEND the old value is the beginning and the argument the rest, and the expiry is kept |
| `Effects.DelMeans` | database/keys.go:20-31 | DEL removes exactly the given keys that are there, with their expiries |
| `Effects.RenameMeans` | database/keys.go:101-123 | After RENAME the destination has the entity and the expiry of the source, which is gone; the destination keeps its own expiry if there is none to move |
| `Effects.RenameSelfMeans` | database/keys.go:101-123 | RENAME of a key to itself deletes it and leaves its expiry |
| `Effects.ExpireMeans` | database/keys.go:159-256 | The expiry recorded for a key that is there: now and 1000 n or n, or 1000 n or n itself, for EXPIRE, PEXPIRE, EXPIREAT and PEXPIREAT |
| `Effects.PersistMeans` | database/keys.go:310-325 | PERSIST removes the expiry of a key that is there, and nothing else |
| `Effects.PushMeans` | database/list.go:175-192 | LPUSH puts the values in front of the list, the last one first, and RPUSH behind it in their order |
| `Effects.PopMeans` | database/list.go:93-133 | LPOP and RPOP take one element, or as many as the count says and there are, off their end; the key goes with the last one; and which counts are refused or panic |
| `Effects.MoveMeans` | database/list.go:484-513 | RPOPLPUSH makes the last element of one list the first of another, and an emptied source goes with its expiry |
| `Effects.RotateMeans` | database/list.go:484-513 | On one list it is a rotation |
| `Effects.LSetMeans` | database/list.go:328-359 | LSET replaces one element, counted from the end if the index is negative, and keeps the others; other indices are refused |
| `Effects.LRemMeans` | database/list.go:283-325 | LREM n removes the first n equal elements, the last -n if n is negative, and all if it is 0, or as many as there are; the others keep their order |
| `Effects.HMSetMeans` | database/hash.go:212-239 | After HMSET and HSET a named field has the value given for it last, and the others what they had |
| `Effects.HDelMeans` | database/hash.go:131-162 | HDEL removes the named fields, and the hash with the last of them |
| `Effects.SAddMeans` | database/set.go:42-57 | After SADD the members are the old and the named ones |
| `Effects.SRemMeans` | database/set.go:81-103 | SREM removes the named members, and the set with the last of them |
| `Effects.ZAddMeans` | database/sortedset.go:43-79 | After ZADD a named member has the score given for it last; a score that is no number has nothing stored |
| `Effects.ZIncrByMeans` | database/sortedset.go:591-617 | ZINCRBY adds the increment to the score, or to 0 for a new member, and keeps the other members |
| `Effects.ZRemMeans` | database/sortedset.go:550-578 | ZREM removes the named members, and keeps the sorted set even if it is empty then |
| `Transactions.DB.ExecSet` | database/string.go:123-216 | Refines the value-level SET that the undo lemmas are about: policy, entity and expiry |
| `Transactions.DB.ExecIncr` | database/string.go:418-441 | Refines INCR, with the wrap-around of 64-bit addition |
| `Transactions.DB.ExecAppend` | database/string.go:580-592 | Refines APPEND |
| `Transactions.DB.ExecDel` | database/keys.go:20-31 | Refines DEL |
| `Transactions.DB.ExecRename` | database/keys.go:101-123 | Refines RENAME: the entity moves, and its expiry with it if it has one; RenameExpiry says what becomes of the expiry of the destination |
| `Transactions.DB.ExecExpireAt` | database/keys.go:159-256 | Refines EXPIRE, PEXPIRE, EXPIREAT and PEXPIREAT |
| `Transactions.DB.ExecPersist` | database/keys.go:310-325 | Refines PERSIST |
| `Transactions.DB.ExecPush` | database/list.go:175-192 | Refines LPUSH and RPUSH: the loop pushes one value after the other |
| `Transactions.DB.ExecPop` | database/list.go:93-133 | Refines LPOP and RPOP with their counts: the errors, the panics and the removal of an emptied list |
| `Transactions.DB.ExecRPopLPush` | database/list.go:484-513 | Refines RPOPLPUSH, between two lists and within one |
| `Transactions.DB.ExecLSet` | database/list.go:328-359 | Refines LSET with negative indices and its errors |
| `Transactions.DB.ExecLRem` | database/list.go:283-325 | Refines LREM from either end, with the removal of an emptied list |
| `Transactions.DB.ExecHMSet` | database/hash.go:212-239 | Refines HSET and HMSET |
| `Transactions.DB.ExecHDel` | database/hash.go:131-162 | Refines HDEL with the removal of an emptied hash |
| `Transactions.DB.ExecSAdd` | database/set.go:42-57 | Refines SADD |
| `Transactions.DB.ExecSRem` | database/set.go:81-103 | Refines SREM with the removal of an emptied set |
| `Transactions.DB.ExecZAdd` | database/sortedset.go:43-79 | Refines ZADD: all scores are read before any is stored |
| `Transactions.DB.ExecZIncrBy` | database/sortedset.go:591-617 | Refines ZINCRBY |
| `Transactions.DB.ExecZRem` | database/sortedset.go:550-578 | Refines ZREM, which leaves an empty sorted set |
| `Transactions.DB.Exec` | database/database.go:128-139 | The executor of each command does to the database object what the command does to the value it holds |
| `Transactions.DB.RollbackGivenKeys` | database/tx_utils.go:45-62 | Builds the log that RestoreKeys is about; looking the keys up removes expired ones, and an empty sorted set makes it panic |
| `Transactions.DB.RollbackHashFields` | database/tx_utils.go:64-90 | Builds the log that UndoneHMSet and UndoneHDel are about |
| `Transactions.DB.RollbackSetMembers` | database/tx_utils.go:110-135 | Builds the log that UndoneSAdd and UndoneSRem are about |
| `Transactions.DB.RollbackZSetFields` | database/tx_utils.go:148-174 | Builds the log that the lemmas on sorted sets are about |
| `Transactions.DB.UndoPopped` | database/list.go:137-172 | Builds the log that UndonePop is about, and panics just for the counts that make it slice out of range |
| `Transactions.DB.UndoMoved` | database/list.go:515-536 | Builds the log that UndoneRPopLPush is about |
| `Transactions.DB.UndoLSet` | database/list.go:361-392 | Builds the log that UndoneLSet is about |
| `Transactions.DB.GetUndoLogs` | database/transaction.go:153-164 | For every command the log that UndoRestores is about, taken before the command changes anything |
| `Transactions.DB.IsWatchingChanged` | database/transaction.go:30-38 | True if and only if some watched key has another version now |
| `Transactions.DB.RollBack` | database/transaction.go:128-139 | Runs the logs, the newest first, each from head to tail |
| `Transactions.DB.ExecMulti` | database/transaction.go:85-140 | EXEC on the object: nothing at all if a watched key has changed, else all of the queue with its versions counted up, or the versions as they were and, after a failure, the data as before and the expiries without those of LostTtls |
| `Watching.BumpedAt` | database/database.go:290-304 | The version of a key counts its announced writes, modulo 2^32 |
| `Watching.VersionTells` | database/database.go:290-304 | With fewer than 2^32 announcements the version is what it was if and only if none was of the key |
| `Watching.WatchDetects` | database/transaction.go:30-38 | Over every run of commands and lookups of others, expiries that pass included: if the version is what it was at WATCH, and fewer than 2^32 writes were announced, the key has the value and expiry it had if and only if it was not there, or was neither renamed away nor looked up after its expiry |
| `Watching.GoesUnseen` | database/database.go:275-286 | Over every run: a key that was there, is renamed away or looked up after its expiry, and is never announced, is gone at the end, and its version is what it was |
| `Watching.WatchMisses` | database/keys.go:94-98 | Such runs: one RENAME of the watched key; one lookup after its expiry |
| `Watching.StepElsewhere` | database/tx_utils.go:9-38 | No command changes a key it does not name |
| `Watching.AnnouncesChanged` | database/tx_utils.go:9-38 | A command announces each key it may change, as often as it is given, and no other; RENAME does not announce its source |
| `Watching.AnnouncesLike` | database/transaction.go:85-125 | EXEC announces what its commands announce one by one |
| `Watching.FirstVersions` | database/database.go:290-304 | The versions of a new key count from 0 |
| `Transactions.DB.Watch` | database/transaction.go:10-17 | Records the current version of each watched key, and keeps those recorded before |
| `Watching.WatchThenExec` | database/transaction.go:85-106 | WATCH, any run of commands and lookups of others, and EXEC, on the database object: EXEC refuses and changes nothing if and only if a watched key was announced in between (fewer than 2^32 announcements), and otherwise executes the queue |
| `Expiries.LookFirst` | database/database.go:152-162 | A command as it is logged does at any time what it does before all expiries, once the expired keys it looks up are gone |
| `Expiries.StepTells` | database/database.go:275-286 | For any two times and any state, expired keys included, such a command leaves the same state if and only if it looks up no key that has expired at just one of them, or takes that key away in any case |
| `Expiries.StepSound` | aof/aof.go:182-249 | At any time every such command keeps what a dump needs: collections that are not empty, no expiries but those logged and, unless a key is renamed to itself, no expiry without a key |
| `AppendOnlyFiles.ReplaySound` | aof/aof.go:182-249 | And so does replaying a log at any time |
| `AppendOnlyFiles.ReplayTells` | aof/aof.go:182-249 | Every beginning of a log means the same at two times if and only if no line tells them apart in the sense of StepTells |
| `AppendOnlyFiles.AgreedSteady` | aof/aof.go:182-249 | No line does if the two times have passed the same of the logged expiries |
| `AppendOnlyFiles.SelfRename` | database/keys.go:101-123 | Renaming a key to itself deletes it, and leaves an expiry without a key if and only if it had one |
| `AppendOnlyFiles.RenameExpiry` | database/keys.go:101-123 | RENAME gives the destination the expiry of the source, or none if that has none, if and only if the source has one or the destination had none; otherwise the destination keeps its old expiry |
| `AppendOnlyFiles.DumpDB` | aof/aof.go:305-317 | Executing the written commands in an empty database, at any time and whatever the order of the keys, gives the database with its expiries, passed ones too, if and only if no expiry is without a key |
| `AppendOnlyFiles.DumpAll` | aof/aof.go:291-320 | Over all databases: whenever the lines are replayed, they give these databases, without the expiries that have no key |
| `AppendOnlyFiles.LoadAof` | aof/aof.go:182-249 | The databases are those the lines mean, and currentDB is the database selected by the last SELECT; a limit of 0 reads everything |
| `AppendOnlyFiles.GenerateAof` | aof/aof.go:291-320 | Whenever the temporary file is replayed, it gives the databases that the file up to the recorded size meant at the time of the dump, without the expiries that have no key |
| `AppendOnlyFiles.DumpThenRest` | aof/rewrite.go:87-148 | The dump of some lines, the SELECT of a database, the lines behind the recorded size and the SELECT of the current database mean at any time what those lines meant at the dump, and then the rest; they mean the whole file, if the dump is harmless: the dumped lines are the ones before the rest, leave no expiry without a key, and do not tell that time from the dump |
| `AppendOnlyFiles.RewriteTells` | aof/rewrite.go:29-41 | For every log without a RENAME of a key to itself: rewriting the file at one time keeps what it means at another, at whatever moment of the writing it happens, if and only if no line tells the two times apart |
| `AppendOnlyFiles.AppendRewrites` | aof/aof.go:149-179 | A line appended to file and log keeps the invariant: at every time for which all past rewritings were harmless, the file means what the log means |
| `AppendOnlyFiles.FinishRewrites` | aof/rewrite.go:87-148 | So does merging a dump with the rest of the file |
| `AppendOnlyFiles.Persister.constructor` | aof/aof.go:78-109 | An opened file meets the invariant |
| `AppendOnlyFiles.Persister.WriteAof` | aof/aof.go:149-179 | Appends the command, after a SELECT just if another database was the current one; file and complete log keep the same meaning |
| `AppendOnlyFiles.Persister.StartRewrite` | aof/rewrite.go:58-84 | Records the size of the file and the current database |
| `AppendOnlyFiles.Persister.DoRewrite` | aof/rewrite.go:45-55 | Keeps the invariant beside any appends, at any time: the dump is of the lines up to the recorded size, or of all there are if that is 0, and means what they mean at that time; it panics just on an empty sorted set |
| `AppendOnlyFiles.Persister.FinishRewrite` | aof/rewrite.go:87-148 | For every recorded size and every later time: the rewritten file means what the dumped lines meant at the dump and then the lines behind the recorded size; it means what the file meant, databases, expiries and selected database, if the dump is harmless for that time |
| `AppendOnlyFiles.Persister.RestartsAlike` | aof/rewrite.go:29-41 | After any interleaving of appends and the three steps of rewriting, at any time: replaying the file gives the databases and expiries that replaying all that was ever appended gives, if every rewriting was harmless for that time; it was if the time has passed the same logged expiries as the dump, no key was renamed to itself and nothing was doubled; the database selected at the end is currentDB |
| `AppendOnlyFiles.RewriteOfEmptyFile` | aof/aof.go:213-217 | A run of the three steps on an empty file, with one RPUSH before the dump: the rewritten file means a list with the element twice |
| `AppendOnlyFiles.MovedMeans` | database/keys.go:238-256 | A string whose expiry is moved or removed in time: a replay after the first expiry deletes it at the line that moves it, an earlier one keeps it |
| `AppendOnlyFiles.RewriteRescues` | aof/aof.go:182-249 | A run of the three steps on that log, before the first expiry: a restart after it finds the string in the rewritten file, and not in the log |
| `ShardLocks.ToLockIndices` | datastruct/dict/concurrent.go:387-404 | The shards of the keys, each once, in ascending or descending order |
| `ShardLocks.RWLocks` | datastruct/dict/concurrent.go:407-424 | Takes the shards of all keys in ascending order, to write just if a key to write is in the shard |
| `ShardLocks.RWUnLocks` | datastruct/dict/concurrent.go:427-444 | Releases exactly what RWLocks took, in the same modes, in the reverse order |
| `ShardLocks.RestMeets` | datastruct/dict/concurrent.go:407-444 | With all clients at rest the invariant holds: whoever holds a shard to write holds it alone |
| `ShardLocks.MovesKeeps` | datastruct/dict/concurrent.go:407-444 | Every step of any client keeps it |
| `ShardLocks.RunKeeps` | datastruct/dict/concurrent.go:407-444 | So every state of every run, for any number of clients and any keys, meets it |
| `ShardLocks.Exclusion` | datastruct/dict/concurrent.go:407-444 | No two clients are at work together with one writing a key the other uses |
| `ShardLocks.NoDeadlock` | datastruct/dict/concurrent.go:407-444 | As long as some client is not done, some such client can take a step, even if waiting writers keep new readers out |
| `ShardLocks.Progress` | datastruct/dict/concurrent.go:407-444 | Every step but a new beginning brings the clients nearer to rest |
| `DictScans.ConcurrentDict.constructor` | datastruct/dict/concurrent.go:42-68 | An empty dict, with a counter of 0 |
| `DictScans.ConcurrentDict.Put` | datastruct/dict/concurrent.go:132-148 | Sets the entry of the key, in the shard it is spread to, and no other; 1 just if it is new; the counter is the number of entries |
| `DictScans.ConcurrentDict.PutIfAbsent` | datastruct/dict/concurrent.go:167-182 | The same, if the key has no entry |
| `DictScans.ConcurrentDict.PutIfExists` | datastruct/dict/concurrent.go:200-214 | The same, if the key has one |
| `DictScans.ConcurrentDict.Remove` | datastruct/dict/concurrent.go:231-246 | The entry of the key is gone and returned, and the counter is the number of entries |
| `DictScans.ConcurrentDict.AtRest` | datastruct/dict/concurrent.go:124-129 | So in a dict nobody changes Len is the number of keys, and the shards hold exactly the keys of the entries |
| `DictScans.Keys` | datastruct/dict/concurrent.go:297-310 | What it returns for any number Len has said and any keys ForEach meets, shard after shard in any order within one: padded with empty keys if there are fewer, and every second one of those that find no room written over |
| `DictScans.FilledHas` | datastruct/dict/concurrent.go:297-310 | A key that Keys meets is in its answer if and only if it is not written over by the next one |
| `DictScans.KeysComplete` | datastruct/dict/concurrent.go:297-310 | Keys leaves out no key if and only if it meets at most one more than Len has said; it lists the dict, each key once, if and only if it meets as many or one more |
| `DictScans.DictScan` | datastruct/dict/concurrent.go:454-488 | A call returns each matching key of a stretch of shards once and the cursor behind the stretch, or what Keys returns; it may see each shard at another time |
| `DictScans.ScanEnds` | datastruct/dict/concurrent.go:454-488 | Whatever others do in between, a scan ends within as many calls as there are shards |
| `DictScans.ScanComplete` | datastruct/dict/concurrent.go:454-488 | A scan that has ended has returned a matching key that was there all the time if and only if not (its last call was answered at once, the key is in a shard from its cursor on, and Keys has written over it); so it has if that call met at most one key more than Len said |
| `DictScans.ScanMisses` | datastruct/dict/concurrent.go:297-310 | A scan that does not return a key that was there all the time: two keys are put in while Keys walks |
| `DictScans.ScanOnce` | datastruct/dict/concurrent.go:454-488 | All that a finished scan of a dict nobody changes, with a fixed count, has returned, taken together, lists each matching key exactly once |
| `DictScans.CountMeans` | datastruct/dict/concurrent.go:454-488 | A call goes through its first shard, and through a further one if the keys found and those in it are not more than the count; it stops at the first other |
| `DictScans.CallReturns` | datastruct/dict/concurrent.go:454-488 | So it returns at most count keys, unless the first shard alone has more |
| `DictScans.AnsweredAtOnce` | datastruct/dict/concurrent.go:454-488 | Exactly when a call is answered at once, and what the cursor and the keys are otherwise |
| `TimeWheels.Placed` | lib/timewheel/timewheel.go:178-184 | A task put where getPositionAndCircle says runs at the (k+1)-th tick, for any number of slots and any position |
| `TimeWheels.Nearer` | lib/timewheel/timewheel.go:107-118 | One tick brings every task one tick nearer |
| `TimeWheels.TimeWheel.AddJob` | lib/timewheel/timewheel.go:157-176 | The job becomes pending with the tick at which it is due, in place of one with the same key; slots and timer agree with that book |
| `TimeWheels.TimeWheel.RemoveJob` | lib/timewheel/timewheel.go:186-200 | The pending job with that key is gone |
| `TimeWheels.TimeWheel.RemoveTaskInternal` | lib/timewheel/timewheel.go:192-200 | The same, within the wheel |
| `TimeWheels.TimeWheel.GetPositionAndCircle` | lib/timewheel/timewheel.go:178-184 | A place from which the task runs after as many ticks as the delay has intervals, and one |
| `TimeWheels.TimeWheel.TickHandler` | lib/timewheel/timewheel.go:107-118 | Runs exactly the jobs that are due at this tick, each once, and keeps the others |
| `TimeWheels.Scan` | lib/timewheel/timewheel.go:120-155 | The loop over a slot: which tasks stay, which run, and which keys leave the timer |
| `TimeWheels.FiresOnTime` | lib/timewheel/timewheel.go:107-200 | A job added with a delay of k intervals runs at the (k+1)-th tick after and not before, whatever else is added or removed, unless its key is cancelled or used again |
| `TimeWheels.CancelledNeverRuns` | lib/timewheel/timewheel.go:186-201 | A job that is removed by its key, or replaced by another with that key, never runs |
| `ClusterFsm.SearchFinds` | cluster/raft/fsm_utils.go:31-33 | The bisection of sort.Search ends at the first slot that is at least the one searched, in an ascending list |
| `ClusterFsm.EntryKeepsSlots` | cluster/raft/fsm.go:84-127 | A migration between two nodes, a failover between two nodes, the start of a migration and a join keep every owned slot owned, and listed by its owner |
| `ClusterFsm.EverySlotOwned` | cluster/raft/fsm.go:84-127 | From the start of a cluster on, for every log of such entries, every slot 0..N-1 has an owner that lists it |
| `ClusterFsm.SelfMigrationDisowns` | cluster/raft/fsm.go:98-102 | Why the nodes must differ: a migration from a node to itself leaves its slots without an owner |
| `ClusterFsm.MigrationKeepsInverse` | cluster/raft/fsm.go:98-102 | If the slots belong to the source, the lists stay ascending and the exact inverse of the owners |
| `ClusterFsm.SweepLeaves` | cluster/raft/fsm_utils.go:44-57 | What removeSlots does when it is given the list it shrinks: of n slots every second one stays, (n-1)/2 of them |
| `ClusterFsm.FailoverInverse` | cluster/raft/fsm.go:111-118 | After a failover lists and owners are inverse if and only if the old master had at most two slots |
| `ClusterFsm.LogKeepsInverse` | cluster/raft/fsm.go:84-127 | For logs of migrations of owned slots, joins and failovers of masters with at most two slots, lists and owners stay inverse |
| `ClusterFsm.SeedInverse` | cluster/raft/fsm.go:103-110 | They are inverse at the start of a cluster |
| `ClusterFsm.JoinKeepsRoles` | cluster/raft/fsm_utils.go:92-115 | Every node stays a master or the slave of one master, with the two maps inverse, if and only if the joining node is new or joins in the role it has |
| `ClusterFsm.FailoverKeepsRoles` | cluster/raft/fsm_utils.go:59-80 | The same holds after a failover if and only if the new master was a slave of the old one, or not in use |
| `ClusterFsm.EntryKeepsRoles` | cluster/raft/fsm.go:84-127 | So an entry keeps the roles if and only if it is such a join or failover or none of the two |
| `ClusterFsm.LogKeepsRoles` | cluster/raft/fsm.go:84-127 | And so does a log |
| `ClusterFsm.RestoredRoles` | cluster/raft/fsm.go:197-201 | The masters of the slaves, rebuilt from a snapshot into a new machine, are those of the machine it was taken from |
| `ClusterEffects.FailoverMeans` | cluster/raft/fsm_utils.go:59-80 | After a failover the new master is a master whose slaves are the other slaves and the old master, which have it for master; it is no slave, the old master is no master, and the others keep their roles |
| `ClusterEffects.FailoverSlots` | cluster/raft/fsm.go:111-118 | The slots the old master listed have the new one for owner, which lists them; the other owners and lists stay |
| `ClusterEffects.OthersOrder` | cluster/raft/fsm_utils.go:59-80 | The other slaves keep their order |
| `ClusterEffects.JoinMasterMeans` | cluster/raft/fsm_utils.go:92-115 | A node that joins alone is a master without slaves, and nothing else changes |
| `ClusterEffects.JoinSlaveMeans` | cluster/raft/fsm_utils.go:92-115 | A node that joins a known master is listed by it and has it for master, and nothing else changes; with an unknown master nothing changes at all |
| `ClusterEffects.SeedMeans` | cluster/raft/fsm.go:103-110 | At the start the leader is a master without slaves, owns all slots and lists them in order |
| `ClusterEffects.StartMigrateMeans` | cluster/raft/fsm.go:95-97 | A migration that starts is recorded under its id, and nothing else changes |
| `ClusterEffects.FinishMigrateMeans` | cluster/raft/fsm.go:98-102 | A migration that ends is deleted; its slots have the target for owner, which lists them, and the source no longer does; other slots, lists, migrations and roles stay |
| `ClusterFsm.FSM.AddSlots` | cluster/raft/fsm_utils.go:28-42 | Refines the insertion of slots into an ascending list and their owner |
| `ClusterFsm.FSM.RemoveSlots` | cluster/raft/fsm_utils.go:44-57 | Refines the removal of slots from the list, and of the owner just if it is the node |
| `ClusterFsm.FSM.RemoveOwnSlots` | cluster/raft/fsm_utils.go:44-57 | The same loop on an array it shares with its argument, as SweepLeaves describes it |
| `ClusterFsm.FSM.Failover` | cluster/raft/fsm_utils.go:59-80 | Refines the exchange of a master that FailoverKeepsRoles is about |
| `ClusterFsm.FSM.AddNode` | cluster/raft/fsm_utils.go:92-115 | Refines the join that JoinKeepsRoles is about; refuses a slave of an unknown master and changes nothing then |
| `ClusterFsm.FSM.Apply` | cluster/raft/fsm.go:84-127 | Refines the step that the lemmas on logs are about |
| `ClusterFsm.FSM.Restore` | cluster/raft/fsm.go:178-206 | The lists hold each slot once, with its owner, in any order; each slave has a master that lists it, and masters known before are not cleared |
| `ClusterFsm.RestoreNew` | cluster/raft/fsm.go:178-206 | Snapshot and restore into a new machine give back everything but the order of the lists |
| `TryCommitCancel.Cluster.Prepare` | cluster/core/tcc.go:46-85 | Keeps records and locks in agreement: hasLock tells whether the locks are held, also after an error |
| `TryCommitCancel.Cluster.Commit` | cluster/core/tcc.go:87-118 | Runs the command once and releases locks that are held; answers with an error without a record |
| `TryCommitCancel.Cluster.Rollback` | cluster/core/tcc.go:120-151 | Leaves no record and no lock |
| `TryCommitCancel.Cluster.DoTcc` | cluster/commands/tcc_utils.go:33-60 | For any order of the nodes and any failures: succeeds if and only if every node of the route has a command and all prepare and commit; the command runs on a node at most once, and only if all prepared; no lock is left; other transactions are not touched |
| `TryCommitCancel.Cluster.PrepareAll` | cluster/commands/tcc_utils.go:33-46 | Either all nodes have prepared or none keeps a record or lock |
| `TryCommitCancel.Cluster.CommitAll` | cluster/commands/tcc_utils.go:47-60 | Every node has run the command once, or no record and no lock is left |
| `TryCommitCancel.Cluster.RequestRollback` | cluster/commands/tcc_utils.go:62-67 | No record and no lock is left on the nodes of the route |
| `TryCommitCancel.StartMeets` | cluster/core/tcc.go:30-34 | Before any transaction the invariant holds |
| `TryCommitCancel.NextKeeps` | cluster/core/tcc.go:46-151 | Every step of any of several coordinators, whatever the node answers, keeps the invariant |
| `TryCommitCancel.Safety` | cluster/commands/tcc_utils.go:33-67 | In every state of every run with any number of coordinators interleaved: no node runs its command before all have prepared, none runs it twice, hasLock tells the truth, a commit finds its locks held, and none is left when the coordinator is done |
| `TryCommitCancel.ComesToAnEnd` | cluster/commands/tcc_utils.go:33-67 | A coordinator that is not done can send its next request to each node it has left, and whatever the answer, fewer requests are left then |
| `TryCommitCancel.HasSomeLeft` | cluster/commands/tcc_utils.go:33-67 | And it has a node left |
| `TryCommitCancel.Deadlock` | cluster/core/tcc.go:46-85 | A run from the start after which two coordinators, having gone to the same two nodes in opposite order, each have only nodes left whose locks the other holds |
| `TccUndoing.RunBackwards` | cluster/core/tcc.go:139-142 | The loop runs the undo log in reverse order |
| `TccUndoing.KeysBackwards` | cluster/core/tcc.go:139-142 | Whatever the state, running the log of rollbackGivenKeys backwards removes all its keys and leaves the others alone |
| `TccUndoing.RollbackBackwards` | cluster/core/tcc.go:120-151 | So the rollback of a cluster transaction restores the data, committed or not, if and only if none of its keys was there |
| `Resp.StreamBack` | redis/parser/parser.go:63-223 | Parsing the concatenated encodings of any replies gives those replies in order and then the end of the input, for any binary payload; a nil argument comes back empty |
| `Resp.ReplyBack` | redis/parser/parser.go:63-132 | The same for one reply, whatever follows it |
| `Resp.ErrorBack` | redis/protocol/reply.go:193-195 | An error text is read back if and only if it has no line feed |
| `Resp.ParsedInOneLine` | redis/parser/parser.go:63-132 | No text the parser delivers has a line feed, for any input |
| `Resp.CommandBack` | redis/parser/parserv2.go:10-88 | ParseV2 gives the arguments of an encoded command, nil ones too, and consumes exactly its bytes |
| `Resp.ParsersAgree` | redis/parser/parserv2.go:10-88 | The two parsers agree on an encoded command if and only if no argument is nil |
| `Resp.MultiToBytes` | redis/protocol/reply.go:54-86 | The two loops write the encoding, and the length computed beforehand is exact |
| `Resp.BufLen` | redis/protocol/reply.go:57-65 | That length |
| `Resp.Parse0` | redis/parser/parser.go:63-132 | The loop over a reader sends what Parse describes, for any input, malformed ones too |
| `Resp.Turn` | redis/parser/parser.go:72-131 | One turn of it: what is sent and what is left to read |
| `Resp.ParseArray` | redis/parser/parser.go:181-223 | The loop over the arguments, with its protocol errors and the end of the input |
| `Resp.ParseCommand` | redis/parser/parserv2.go:10-88 | The loop of ParseV2 returns what the lemmas are about, for any input |
| `Resp.ReadLineBytes` | redis/parser/parserv2.go:98-122 | Reading byte by byte up to a carriage return that a line feed must follow |
| `WireFormat.StatusBytes` | redis/parser/parser.go:85-97 | The bytes 43, a text without a line feed, 13 and 10 are read as that status, whatever follows |
| `WireFormat.ResyncBytes` | redis/parser/parser.go:157-178 | After a status that begins with FULLRESYNC a file is read, which has a length and no line end |
| `WireFormat.NoFile` | redis/parser/parser.go:157-178 | Without a length above 0 the parser stops there |
| `WireFormat.ErrorBytes` | redis/parser/parser.go:98-101 | 45 and a text: an error |
| `WireFormat.IntegerBytes` | redis/parser/parser.go:102-110 | 58 and a numeral: an integer; anything else is a protocol error |
| `WireFormat.BulkBytes` | redis/parser/parser.go:134-154 | 36, a length, 13, 10, that many bytes of any kind, 13 and 10: a string |
| `WireFormat.BulkOtherwise` | redis/parser/parser.go:134-154 | A length of -1 is nil, another negative one or none a protocol error, and too few bytes end the stream |
| `WireFormat.ArrayBytes` | redis/parser/parser.go:181-223 | 42, a number and that many strings: an array, which both parsers read |
| `WireFormat.ArrayOtherwise` | redis/parser/parser.go:181-223 | A negative number, or none, is a protocol error |
| `WireFormat.ArrayBroken` | redis/parser/parser.go:199-203 | So is a string of an array that does not begin with 36 |
| `WireFormat.InlineBytes` | redis/parser/parser.go:125-130 | A line with another first byte is a command with the arguments between its spaces, for both parsers |
| `WireFormat.SplitMeans` | redis/parser/parser.go:125-130 | Those arguments have no space in them, and with a space between each two they are the line |
| `WireFormat.OtherLines` | redis/parser/parser.go:78-82 | Lines that are empty or have no carriage return are passed over |
| `WireFormat.WrittenBytes` | redis/protocol/reply.go:54-86 | The bytes each kind of reply is written as, which end in 13 and 10 |
| `WireFormat.NilBytes` | redis/protocol/reply.go:54-86 | And those for nil |
| `Replication.Behind` | database/replication_master.go:80-83 | Behind the bytes of the first k commands come the bytes of the others, and there are some just if there are others |
| `Replication.NextCmd` | database/replication_slave.go:392-402 | The slave reads the next command off the wire whatever follows it |
| `Replication.Link.Callback` | database/replication_master.go:422-428 | The backlog is the encodings of all commands so far, and the current offset is behind them |
| `Replication.Link.GetSnapshotAfter` | database/replication_master.go:80-83 | From the offset behind the first k commands on, exactly the encodings of the commands from k on, for every k; and the offset behind them all |
| `Replication.Link.SendUpdates` | database/replication_master.go:271-291 | The slave is sent exactly what it has not been sent |
| `Replication.Link.Receive` | database/replication_slave.go:392-411 | The slave executes the next command of the master and its offset is that of the FULLRESYNC and the bytes of the commands executed |
| `Replication.Link.TryPartialSync` | database/replication_master.go:239-267 | Granted if and only if the id is right and something is missing; then exactly the missing commands are sent |
| `Replication.Link.FullReSync` | database/replication_master.go:197-235 | The slave starts over and is sent the whole backlog |
| `Replication.Link.PSync` | database/replication_master.go:239-267 | After any run of commands, sends, receipts and lost connections, a slave that reconnects is sent exactly the commands it has not executed: none twice, none left out; and a connection begins there, which is what FollowsMaster is about |
| `Replicas.FollowsMaster` | database/replication_slave.go:385-411 | For any connections of the slave, each of which starts in database 0: at every point of the stream the slave holds what the master holds if and only if no write that changes anything comes while the two have different databases selected |
| `Replicas.SelectFirst` | database/replication_slave.go:385-411 | It is so if every connection begins where the master has database 0 selected, or before a SELECT |
| `Replicas.WritesElsewhere` | database/replication_slave.go:385-411 | A connection that begins while the master writes to database 1: the next SET goes to database 0 |
| `Replication.CountsBytesSent` | database/replication_slave.go:403-411 | The slave counts as many bytes as were sent if and only if no argument was nil; otherwise one more for each nil argument |
| `Geohash.InItsCell` | lib/geohash/geohash.go:14-43 | Every point of the globe lies in each of its cells |
| `Geohash.HalfOpen` | lib/geohash/geohash.go:14-43 | A cell has its lower edges and not its upper ones, but for the edges of the globe |
| `Geohash.EastNorth` | lib/geohash/geohash.go:14-43 | The first bit is set just for a longitude of at least 0, the second just for such a latitude |
| `Geohash.Widths` | lib/geohash/geohash.go:51-71 | How wide a cell is after n bits: 360 and 180 degrees halved in turn |
| `Geohash.DecodesNear` | lib/geohash/geohash.go:46-81 | Over exact reals, decoding the code of a point misses it by at most 90/2^32 degrees of latitude and 180/2^32 of longitude |
| `Geohash.EncodesBack` | lib/geohash/geohash.go:46-81 | Encoding what a 64-bit code decodes to gives that code |
| `Geohash.CodeInRange` | lib/geohash/neighbor.go:57-62 | For every precision p up to 64 the code of a point lies in [lower, lower + 2^(64-p)) of a cell of p bits if and only if the point has those p bits, so in that of its own cell |
| `Geohash.ScopeNumber` | lib/geohash/geohash.go:89-97 | The bytes of a cell, filled up to eight, are the first code in it |
| `Geohash.UnpackedPacked` | lib/geohash/geohash.go:28-34 | The bits set in the bytes with masks are the bits of the point |
| `Geohash.Encode0` | lib/geohash/geohash.go:14-43 | The bytes hold the bits of the point, for any number of bits, and the box is its cell |
| `Geohash.EncodePoint` | lib/geohash/geohash.go:46-49 | The code that DecodesNear and CodeInRange are about |
| `Geohash.Decode0` | lib/geohash/geohash.go:51-71 | The cell that the bits of the bytes lead to |
| `Geohash.DecodeCode` | lib/geohash/geohash.go:74-81 | The point that DecodesNear and EncodesBack are about |
| `Geohash.ToInt` | lib/geohash/geohash.go:89-97 | The first code of the cell |
| `Geohash.RangeHolds` | lib/geohash/neighbor.go:57-62 | The code of a point lies between the bounds toRange gives for its own cell if and only if that is not the last cell of its precision |
| `Geohash.RangeExact` | lib/geohash/neighbor.go:57-62 | For every other cell the bounds hold the codes of exactly the points with its bits |
| `Geohash.CornerMissed` | lib/geohash/neighbor.go:57-62 | The point at 180 degrees of longitude and 90 of latitude is in the last cell at every precision, so the bounds miss it |
| `Geohash.ToRange` | lib/geohash/neighbor.go:57-62 | The bounds RangeHolds is about, in 64-bit arithmetic: the upper bound of the last cell is 2^64 and wraps to 0 |

## Left out

- Rollbacks.RollbackRestoresData: takes it that no key expires between the first command and the end of the rollback. `Rollbacks.ExpiryUndoneInTime` says what becomes of one that does.
- AppendOnlyFiles.Persister.RestartsAlike: the relative expiries of EXPIRE and SET are logged as absolute ones, and that translation is not modelled.
- Timers that fire while a file is replayed: an expired key goes when it is looked up.
- ClusterFsm.FSM.Failover: with the old master as the new one, the two loops share one slice; the model gives addSlots a list of its own there. The lemmas on slots are about two different nodes.
- TryCommitCancel.Cluster.DoTcc: proves locks and commits; what the undo logs do to the keys is in `TccUndoing`, for those of rollbackGivenKeys, which MSET and DEL use.
- Transactions.DB.Exec: expiries are whole milliseconds without bound, where the source computes with 64-bit nanoseconds.
- Commands outside the 25: SPOP takes its count for a member when it is undone, SETRANGE and SETBIT edit bytes the undo log shares, COPY shares the entity, LTRIM leaves empty lists; the others would add members like those modelled.
- Replies of the commands, beyond error, success or panic; checks on the number of arguments.
- The heap form of the dicts, sets and lists inside an entity: entities are values here, and the list and the sorted set have models of their own.
- Floating-point rounding, NaN and the text form of floats: scores and coordinates are reals.
- Put and remove of the concurrent dict under a lock the caller holds, which are the same without the lock, and its random keys; its counter has no bound here.
- SCAN with a negative cursor, and the text of patterns.
- Goroutines inside one tick of the wheel, and jobs that panic.
- The raft library, JSON, the table of running failovers, and the sharing of maps between the state and a snapshot of it: a log is a given sequence of entries.
- Waiting of coordinators for the key locks of each other, but for `TryCommitCancel.Deadlock`, and the timer that deletes a finished transaction.
- The RDB preamble of the append-only file, I/O errors, fsync, and two rewrites at once.
- Replicas.FollowsMaster: master and slave execute a line at the same time of day, so that a key which expires in between is not seen.
- REPLCONF ACK, and the new backlog after rewriteRDB.
- Memory that runs out on a huge size in the parsers.
- Slot data migration, rebalancing, neighbours and distances of geohash, base32.
