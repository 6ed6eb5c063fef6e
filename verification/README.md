# Verification of keyp

This project models [keyp](https://github.com/luiz-simples/keyp), a key-value server that
speaks the Redis protocol, and proves what its data structures, timers and transactions
promise.

keyp keeps every list, set and sorted set as one flat byte string: an 8-byte little-endian
count, then records `len32 | bytes` (lists and sets) or `score64 | len32 | bytes` (sorted
sets). Each command walks these bytes with its own loop and splices a new string. Here one
function, `Codec.Items` (`SortedSets.Entries`), says which complete records any byte string
holds, well-formed or not, and every loop is proved to compute a stated function of those
records on **every** byte string. Sequences, sets and maps are then refined by the bytes over
whole runs of commands. Each reference is in turn tied to something that does not use it:
scores to the numbers their bits stand for, decoders to the bytes, commands to what the last
one did, sessions to the history of a connection.

| file | contents |
|---|---|
| `Bytes.dfy` | bytes, little-endian words, 32- and 64-bit wrapping |
| `Codec.dfy` | the record format, its exact validator, decoding and re-encoding |
| `Lists.dfy` | the list commands on arbitrary bytes: specification and loops |
| `ListRuns.dfy` | runs: refinement of a sequence, mirror symmetry, push and pop, index laws, LSET |
| `Sets.dfy`, `SetRuns.dfy` | the set commands under any map iteration order; refinement, conservation |
| `MixedRuns.dfy` | list and set commands on the same key |
| `TimedRuns.dfy` | the same with deadlines, ticks and callbacks in between |
| `Scores.dfy` | binary64 order on bit patterns, entry order, uniqueness of the sorted form |
| `SortedSets.dfy`, `SortedSetRuns.dfy` | the sorted-set commands; canonical bytes, ZCOUNT as a rank range |
| `SortedSetAsList.dfy` | sorted sets that pass for lists |
| `ScoreOrder.dfy` | the score comparisons as comparisons of numbers, exactly |
| `AnyBytes.dfy` | the commands on arbitrary bytes, said without any decoder |
| `Decimal.dfy`, `Counters.dfy` | decimal text; INCR, DECR, INCRBY, DECRBY and their runs |
| `Resp.dfy` | the array printer and a RESP2 reader |
| `Expiry.dfy` | the table of deadlines and the timers beside it, over all interleavings |
| `Storage.dfy` | the storage client: the commands as methods on one mutable store |
| `Service.dfy` | dispatch, arity, MULTI, DISCARD, EXEC; replay; the queue as a function of history |
| `Server.dfy` | handler, pool and server objects; ownership and isolation |

Conventions. The store is a map from (database, key) to bytes; every command is one atomic
transaction on it. `None` stands for an absent key and, in replies, for `ErrKeyNotFound` (the
only error the list and set commands report). Machine arithmetic is explicit: `Wrap64`,
`Signed64`, `Wrap32`. Offsets are unbounded integers, which a 64-bit `int` never outgrows on
data that fits in memory. Where the runtime iterates over a map, the model picks elements in
any order, so what is proved holds for every order. `hide` statements only keep definitions
out of proofs that do not need them.

Behaviour modelled as the code has it, also where one might expect otherwise:

- EXEC leaves MULTI on and the queue in place, so a second EXEC replays it.
- EXEC answers `ERR empty command` for queued PING and FLUSHALL without arguments
  (`Service.ReplayExact` gives the exact condition, `Service.AcceptedExceptions` the inputs).
- DO calls itself without end (`Service.ApplyReturnsUnlessDo` says exactly which calls do not return).
- SREM counts repeated arguments (`SetRuns.HitsCountShrinkage` gives the exact condition).
- Lists and sets share one format and carry no type tag, so SADD on a list is accepted and
  removes its repetitions (`MixedRuns.AddDeduplicates` says when the reply is still the growth).
- LPUSH and RPUSH also accept a sorted set whose scores look like record lengths
  (`SortedSetAsList.SingleIsListExactly` gives the exact condition for one member,
  `SortedSetAsList.SubnormalScoreIsList` an input).
- Pushing on a stored encoding of the empty list, which SET can write, and popping again
  removes the key (`ListRuns.PushPopLeft` gives the exact condition).
- A NaN score is accepted by ZADD and spoils the order of the whole sorted set until it is
  overwritten (`SortedSetRuns.SortedExactly`; `SortedSetRuns.NaNHistoryUnsorted` is an input).
- One key that LMDB does not take makes the whole DEL fail, and the keys deleted before it
  come back (`Storage.Client.Del`).
- SISMEMBER never finds the empty member; SMEMBERS lists it.
- Only PERSIST and EXPIRE disarm a timer, DEL and SET do not (`Expiry.DisarmedExactly`), and
  PERSIST comes too late exactly when the callback has tested its flag and not yet deleted
  (`Expiry.SupersededTooLateExactly`; `Expiry.PersistCanComeTooLate` is such a run).
- TTL is computed in 32 bits (`Expiry.TTLExact` gives the exact condition).
- `ARCHITECTURE.md:116` gives SET at most 3 arguments; the table in
  `internal/service/handler.go:83` allows 5, and the model follows the table.

## Model

| member | source | states |
|---|---|---|
| Codec.CheckListData | internal/storage/utils.go:127-158 | the validating loop accepts exactly the well-formed lists, and makes at most one pass per 4 bytes of data whatever 64-bit count the data claims |
| Codec.ListDataIsEncoding | internal/storage/utils.go:127-158 | a byte string is accepted if and only if it is the encoding of some item sequence, namely of the items read from it |
| Codec.EncodeInjective | internal/storage/lpush.go:42-52 | unique decodability: equal bytes, equal lists |
| Codec.DecodeOfEncode | internal/storage/rpush.go:34-48 | what is written is read back: items, count, and no byte left over |
| Codec.WireForm | internal/storage/lpush.go:42-52 | the layout byte by byte, for a list of one item |
| Codec.EncodeOfItems | internal/storage/lset.go:48-71 | on any bytes, re-encoding the complete records gives back the bytes they came from |
| Lists.LPush | internal/storage/lpush.go:31-55 | the prepend loop and splice produce exactly the encoding of the reversed arguments followed by the old items, and their number |
| Lists.RPush | internal/storage/rpush.go:30-51 | the append loop and header patch produce exactly the encoding of the old items followed by the arguments, and their number |
| Lists.LPop | internal/storage/lpop.go:27-74 | on any bytes: first record out, key deleted at count 1, count decremented and everything after the record kept otherwise; refusal when the record is not whole |
| Lists.RPop | internal/storage/rpop.go:26-82 | on any bytes, for any 64-bit count: the unchecked scan finds the record the count names, fails exactly when it is not there, and leaves the encoding of the records before it |
| Lists.LSet | internal/storage/lset.go:24-74 | on any bytes: the rewriting loop yields the list with one item replaced, or refuses; the only damage it accepts is a cut-short last record that is itself replaced |
| Lists.LIndex | internal/storage/lindex.go:26-69 | on any bytes: the item at the resolved position, or not found |
| Lists.LRange | internal/storage/lrange.go:26-81 | on any bytes: the items of the clamped window, nothing, or an error, by which records are whole |
| Lists.ClampWindow | internal/storage/lrange.go:41-53 | the assignments that resolve negative ends and clamp them give first and last position, without overflow for a positive count |
| ListRuns.StepRefines | internal/storage/rpop.go:26-82 | each list command on the stored bytes acts and replies as on a plain sequence |
| ListRuns.DequeRefinement | internal/storage/lpush.go:31-55 | over any run of the eight list commands all replies equal those of a sequence; the key is absent exactly when the sequence is empty and holds exactly its encoding otherwise |
| ListRuns.LengthConserved | internal/storage/llen.go:26-44 | after any run LLEN is the old length plus the values pushed less the values popped |
| ListRuns.PushAnswersLength | internal/storage/rpush.go:30-51 | a push that is not refused answers what LLEN says next |
| ListRuns.PushRefused | internal/storage/rpush.go:19-22 | on a value that is no list LPUSH and RPUSH change nothing and answer 0 |
| ListRuns.PushChangesExactly | internal/storage/lpush.go:15-22 | a push changes the value if and only if it has something to push and the value is absent or a list |
| ListRuns.ForeignSurvives | internal/storage/utils.go:172-203 | over any run of pushes and reads a value that is no list survives, and every push answers 0 |
| ListRuns.MirrorSymmetry | internal/storage/rpop.go:54-79 | the left-right mirror image of any run gives mirrored replies and the reversed list, though the two ends are coded differently |
| ListRuns.PushPopLeft | internal/storage/lpop.go:44-73 | on any well-formed list bytes, or without a key, pops at the left end return any series of pushes there in reverse order and restore what was there byte for byte if and only if it was not the encoding of the empty list or nothing was pushed; otherwise the key is gone |
| ListRuns.PushPopRight | internal/storage/rpop.go:41-81 | the same at the right end |
| ListRuns.RangeRefines | internal/storage/lrange.go:41-78 | LRANGE is the clamped slice for every pair of 64-bit arguments |
| ListRuns.IndexIsUnitRange | internal/storage/lindex.go:37-66 | LINDEX i succeeds exactly when LRANGE i i is non-empty, and then gives its only item |
| ListRuns.RangesSplit | internal/storage/lrange.go:41-78 | LRANGE 0 i-1 followed by LRANGE i -1 is the whole list for 1 <= i <= n |
| ListRuns.SetRepairsOrRefuses | internal/storage/lset.go:30-73 | on any byte string LSET either changes nothing or leaves accepted list data of the same count with the value in place and all other items kept |
| ListRuns.SetSucceedsInRange | internal/storage/lset.go:34-41 | on a well-formed list LSET succeeds exactly for -n <= i < n |
| Sets.DecodeMembers | internal/storage/sadd.go:31-51 | the decoding loop of SADD (and, word for word, of SREM) collects the set of counted complete records, on any bytes |
| Sets.AddMembers | internal/storage/sadd.go:55-61 | the insertion loop computes the union and counts the growth |
| Sets.WriteSet | internal/storage/sadd.go:63-71 | for any iteration order, the bytes written are the encoding of some listing of the set without repetition |
| Sets.SAdd | internal/storage/sadd.go:26-74 | the stored set becomes the union and the reply is the growth in cardinality |
| Sets.MarkHits | internal/storage/srem.go:57-64 | the marking loop collects the named members and counts the argument positions naming one |
| Sets.SRem | internal/storage/srem.go:26-90 | the stored set loses the named members; no hit changes nothing, an empty result deletes the key; the reply counts the hits |
| Sets.SMembers | internal/storage/smembers.go:26-58 | on any bytes: the counted records in stored order, or an error when one is not whole |
| Sets.SIsMember | internal/storage/sismember.go:26-62 | on any bytes: whether the member is among the counted complete records |
| SetRuns.SetRefinement | internal/storage/srem.go:36-89 | over any run of SADD and SREM, under any iteration order, replies and contents are those of the mathematical set, and the key is absent exactly when the set is empty |
| SetRuns.ReadersAgree | internal/storage/smembers.go:36-55 | on a stored set SMEMBERS lists each member once, the header is the cardinality, SISMEMBER agrees with SMEMBERS except on the empty member, and the bytes are also valid list data |
| SetRuns.OrderIsInvisible | internal/storage/sadd.go:66-71 | two runs of the same commands under different iteration orders are indistinguishable by reply, membership and absence |
| SetRuns.HitsCountShrinkage | internal/storage/srem.go:57-80 | SREM's reply is at least the shrinkage, and equals it if and only if no stored member is named twice |
| SetRuns.HitsArePositions | internal/storage/srem.go:57-64 | SREM answers the number of argument positions that name a stored member |
| SetRuns.MemberByLastCommand | internal/storage/sadd.go:31-71 | after any run from any bytes, exactly those are members that the last command naming them added, and those present before that no command named |
| SetRuns.Conservation | internal/storage/srem.go:57-89 | over a whole run on stored bytes, from any bytes and under any iteration order, the number of stored members grows by the SADD replies less the SREM replies if and only if no SREM names a stored member twice |
| SetRuns.RepeatedArgumentOverReports | internal/storage/srem.go:58-64 | a repeated argument makes SREM answer 2 for one removed member |
| MixedRuns.MixedRefinement | internal/storage/sadd.go:26-74 | the possible results of any run of the eight list commands with SADD and SREM on one key are exactly the stored results of that run on a sequence, which the set commands see as the set of its elements and may reorder and deduplicate |
| MixedRuns.ListReadAsSet | internal/storage/smembers.go:26-58 | on a stored list SMEMBERS gives the list, repetitions included, and SISMEMBER finds its non-empty elements |
| MixedRuns.AddDeduplicates | internal/storage/sadd.go:31-71 | SADD to a list reports the growth of the list if and only if the list had no repeated element, and more than the growth otherwise |
| MixedRuns.AddCanShorten | internal/storage/sadd.go:31-71 | SADD of an element that a list of two holds twice answers 0 and leaves a list of one |
| TimedRuns.TimedRefinement | internal/storage/expire.go:14-32 | over any interleaving of list and set commands on a key with EXPIRE, PERSIST, ticks, both halves of callbacks and commands on other keys, the possible final states and replies are exactly those of a sequence that becomes empty at each deletion by a timer of that key and changes by its own commands only |
| TimedRuns.EmptyingHasCause | internal/storage/expire.go:23-32 | when a timer is about to empty the sequence, the run holds the EXPIRE of that very key and the check, at least the requested seconds later, with no PERSIST or EXPIRE of the key in between, whatever commands were called on the key meanwhile |
| Scores.EntryOrder | internal/storage/zadd.go:82-87 | without NaN the sort's comparison is a strict order, total on distinct members |
| Scores.SortedUnique | internal/storage/zadd.go:82-87 | the sort has at most one result: same entries, same sequence |
| Scores.NaNHasNoPlace | internal/storage/zadd.go:82-87 | a NaN score beside any other entry leaves no sorted order at all |
| ScoreOrder.OrderIsNumeric | internal/storage/zadd.go:82-87 | two scores compare as the numbers that sign, exponent and fraction of their bits stand for; NaN compares with nothing |
| ScoreOrder.OrderOnPatterns | internal/storage/zadd.go:82-87 | the same on the patterns: positive ones as integers, negative ones the other way round and below, both zeros equal |
| ScoreOrder.NaNExactly | internal/storage/utils.go:84-86 | NaN is an exponent of all ones with a fraction other than 0 |
| ScoreOrder.RangeIsNumeric | internal/storage/utils.go:84-86 | a score is in range if and only if its number lies between those of the bounds, ends included |
| ScoreOrder.LexIsBefore | internal/storage/zadd.go:83-85 | members of equal score are in byte order: at the first difference the smaller byte, or the end, comes first |
| SortedSets.ZAdd | internal/storage/zadd.go:33-103 | decode, upsert, sort, encode: the bytes represent the updated map, in (score, member) order when no score is NaN; the reply says whether the member is new |
| SortedSets.DecodeScored | internal/storage/zadd.go:36-65 | on any bytes, the decoding loop builds the map of the counted complete records, the last one winning |
| SortedSets.SortEntries | internal/storage/zadd.go:82-87 | a rearrangement always, sorted when no score is NaN |
| SortedSets.WriteEntries | internal/storage/zadd.go:89-100 | the encoding loop writes exactly the encoding of the entries |
| SortedSets.ZRange | internal/storage/zrange.go:26-103 | on any bytes: the members of the clamped window, ending early at damage |
| SortedSets.ZCount | internal/storage/zcount.go:27-80 | on any bytes: how many counted complete records have a score in the interval |
| SortedSets.DecodeOfEncodeZ | internal/storage/zadd.go:42-64 | written entries are read back exactly |
| SortedSets.RepresentationUnique | internal/storage/zadd.go:74-100 | a NaN-free map has at most one representation |
| SortedSetRuns.CanonicalForm | internal/storage/zadd.go:36-102 | after any ZADD history whose final map has no NaN, the stored entries are strictly increasing by (score, member), have distinct members, and are the final map; replies tell new members |
| SortedSetRuns.BytesDependOnMapOnly | internal/storage/zadd.go:36-102 | two histories with the same NaN-free final map leave identical bytes, whatever the orders involved and whatever was overwritten on the way |
| SortedSetRuns.RankedByValue | internal/storage/zrange.go:26-103 | after a history, ZRANGE 0 -1 lists every member once, from the smallest number to the largest and in byte order among equal ones |
| SortedSetRuns.ScoreIsLast | internal/storage/zadd.go:67-72 | every member has the score of the last addition for it |
| SortedSetRuns.AddedIsGrowth | internal/storage/zadd.go:67-70 | the replies are 0 or 1 and add up to the growth |
| SortedSetRuns.NaNFreeExactly | internal/storage/zadd.go:67-80 | the final map has no NaN if and only if every NaN of the history was overwritten by a later addition for its member |
| SortedSetRuns.SortedExactly | internal/storage/zadd.go:82-100 | what a history leaves is sorted if and only if every NaN in it was overwritten or at most one member is left |
| SortedSetRuns.NaNHistoryUnsorted | internal/service/zadd.go:15-22 | a NaN for one member and a number for another leave entries that are not sorted |
| SortedSetRuns.RangeIsSlice | internal/storage/zrange.go:50-99 | ZRANGE is the clamped slice by rank for every pair of 64-bit arguments |
| SortedSetRuns.CountIsSlice | internal/storage/zcount.go:53-77 | ZCOUNT is the length of a rank range, and ZRANGE over that range returns exactly the members in the interval |
| SortedSetRuns.CountedByValue | internal/storage/zcount.go:53-77 | ZCOUNT is the number of members whose scores, as numbers, lie between the bounds |
| SortedSetAsList.AlignedIsList | internal/storage/utils.go:127-158 | a sorted set passes the list validator, with known items, when the low half of every score is 8 plus the length of its member |
| SortedSetAsList.PushedOnAligned | internal/storage/lpush.go:19-55 | LPUSH then accepts the sorted set and stores a list of its values and those items |
| SortedSetAsList.SingleIsListExactly | internal/storage/lpush.go:19-22 | for one member that condition is exact, and LPUSH refuses every other sorted set of one member |
| SortedSetAsList.FirstMemberIsList | internal/storage/zadd.go:71-102 | ZADD on an absent key leaves list data if and only if score and member meet the condition |
| SortedSetAsList.SubnormalScoreIsList | internal/storage/zadd.go:89-100 | such an input: member "a" with the subnormal score of bit pattern 9 |
| AnyBytes.LPopExactly | internal/storage/lpop.go:33-74 | on any bytes LPOP answers x if and only if the count is not 0 and the bytes behind it begin with x; it then cuts exactly those bytes out and takes one from the count, or deletes the key |
| AnyBytes.RPopExactly | internal/storage/rpop.go:33-82 | on any bytes RPOP answers the item the count names and keeps those before it, and changes nothing when there is no such item |
| AnyBytes.LIndexExactly | internal/storage/lindex.go:33-69 | on any bytes LINDEX answers x if and only if the index lies within the count and that many items precede x |
| AnyBytes.LRangeReads | internal/storage/lrange.go:33-81 | on any bytes that begin with as many items as the count says, LRANGE is a slice of them |
| AnyBytes.LSetSucceedsExactly | internal/storage/lset.go:30-71 | on any bytes: exactly when LSET succeeds |
| AnyBytes.SMembersExactly | internal/storage/smembers.go:31-55 | on any bytes SMEMBERS answers exactly as many items as the count says, or fails |
| AnyBytes.MembersExactly | internal/storage/sismember.go:31-60 | on any bytes the members are the items that can be read as far as the count goes, and SISMEMBER finds the non-empty ones |
| AnyBytes.HeadlessIsEmpty | internal/storage/llen.go:30-40 | without a whole count every reader finds nothing, every pop fails and LSET fails |
| AnyBytes.DecodedExactly | internal/storage/zadd.go:36-65 | on any bytes ZADD starts from the entries that can be read as far as the count goes, the last one for a member counting |
| AnyBytes.ZCountExactly | internal/storage/zcount.go:45-77 | on any bytes ZCOUNT counts those entries whose scores, as numbers, lie between the bounds |
| AnyBytes.ZRangeReads | internal/storage/zrange.go:50-99 | on any bytes that begin with as many entries as the count says, ZRANGE is a slice of their members |
| Decimal.ParseOfFormat | internal/storage/utils.go:258-265 | every 64-bit integer that is stored as text parses back |
| Decimal.ParseExactly | internal/storage/utils.go:258-261 | exactly these texts are n: an optional sign that fits, any zeros, the digits of its magnitude |
| Decimal.ShortestText | internal/storage/utils.go:249-265 | n is stored as its shortest text, without plus sign or leading zero |
| Bytes.WrapUnique | internal/storage/incrby.go:7-11 | the wrapped result is the one 64-bit number that differs by a multiple of 2^64 |
| Counters.ModifyIntegerBy | internal/storage/utils.go:245-266 | a missing key counts as 0, an unparsable value is refused untouched, else the result of the operation is stored in canonical decimal and returned |
| Counters.Execute | internal/storage/decrby.go:7-11 | each of the four commands adds its signed amount modulo 2^64 |
| Counters.StepAnswers | internal/storage/incrby.go:7-11 | INCRBY k answers n + k and DECRBY k answers n - k, off by 2^64 only out of range; INCR and DECR are the steps by one; what is stored reads back as the reply |
| Counters.RunIsWrappedSum | internal/storage/incrby.go:7-11 | any run stores the canonical decimal of the start plus the exact signed sum, wrapped once; each reply is the same for its prefix |
| Counters.OrderIrrelevant | internal/storage/utils.go:245-266 | reordering the commands of a run does not change what it stores |
| Counters.IncrementUndone | internal/storage/decrby.go:7-11 | INCRBY d then DECRBY d restores the number even across overflow, and restores the bytes if and only if they were canonical |
| Counters.NonIntegerUntouched | internal/storage/utils.go:258-261 | a value that is no integer survives any run, and every reply is the error |
| Resp.PrintArray | internal/service/utils.go:88-100 | the printing loop emits exactly the array of bulk strings |
| Resp.ArrayRoundTrip | internal/service/utils.go:88-100 | a RESP2 reader gets back exactly the items and exactly the following bytes, whatever bytes the items contain |
| Resp.ArrayForm | internal/service/utils.go:88-100 | the bytes of the empty array and of an array of two |
| Resp.ArraysSelfDelimiting | internal/service/utils.go:88-100 | two replies followed by anything are equal only if the items and the rest are |
| Expiry.StepKeepsValid | internal/storage/expire.go:14-32 | commands, ticks and both halves of a callback, in any order, keep: every running timer is the table's timer for its slot, every entry has its running timer and deadline, no callback is early |
| Expiry.HarmlessForEver | internal/storage/utils.go:116-124 | a timer that was cancelled before its check, or is done, stays harmless over every continuation |
| Expiry.CanStillDelete | internal/storage/utils.go:116-124 | some continuation lets a timer delete its key if and only if the timer is not harmless |
| Expiry.SupersededTooLateExactly | internal/storage/persist.go:21-29 | after a PERSIST or newer EXPIRE of its key a timer can still delete the key if and only if its callback had passed the check and not yet deleted |
| Expiry.Provenance | internal/storage/expire.go:23-32 | behind every callback past its check lie the EXPIRE that registered it and a check at least the requested seconds later, with no PERSIST or EXPIRE of the key in between |
| Expiry.NoUnexplainedDeletion | internal/storage/expire.go:23-32 | whenever a key present at the start of a run is absent at its end, the run holds a command that deleted it, or a callback with its whole chain: the EXPIRE of that very key, the check at least the requested seconds later, nothing superseding in between |
| Expiry.OnlyRemoved | internal/storage/expire.go:29-31 | after any run a key holds what the last command on it left there, or nothing: timers remove values and never alter or restore one |
| Expiry.OnlySupersedingDisarms | internal/storage/expire.go:23-25 | over any run without its own check, a pending live timer stays as it is, except that its flag is cleared exactly when its key was persisted or given a newer EXPIRE |
| Expiry.DisarmedExactly | internal/storage/utils.go:116-124 | a timer checked when its deadline is reached goes on to delete if and only if no PERSIST or EXPIRE of its key came before |
| Expiry.DueTimerDeletesAnyValue | internal/storage/expire.go:29-31 | after any run in which it is neither superseded nor checked, a due timer deletes whatever the key then holds, and its table entry stays |
| Expiry.TimeoutExactly | internal/storage/expire.go:27-32 | n seconds after EXPIRE the callback gets to its deletion if and only if n has reached the timeout, and TTL reports the seconds left while the clock fits 32 bits |
| Expiry.UntimedReportsZero | internal/storage/ttl.go:14-26 | a key without a timeout reports 0 through whatever happens until its next EXPIRE |
| Expiry.PersistedReportsZero | internal/storage/persist.go:21-29 | so does a key after PERSIST |
| Expiry.PersistCanComeTooLate | internal/storage/utils.go:116-120 | from one stored key: EXPIRE, the first half of the callback, a PERSIST that finds its entry, the second half, and the key is lost |
| Expiry.TTLExact | internal/storage/ttl.go:28-33 | TTL is the time remaining if and only if the 32-bit clock does not wrap between now and the deadline |
| Expiry.TTLExactThisCentury | internal/storage/expire.go:28 | while the clock fits 32 bits, TTL is right if and only if the deadline fits too |
| Expiry.LongestTimeoutReportsZero | internal/storage/expire.go:28 | the largest timeout reports no time left at once although its timer is armed and not due |
| Storage.Client.LPush | internal/storage/lpush.go:10-62 | empty key, no values and wrong data leave the store alone and answer 0; otherwise only this key changes, as specified |
| Storage.Client.RPop | internal/storage/rpop.go:10-89 | refusals leave the store alone; otherwise only this key changes, as specified |
| Storage.Client.LSet | internal/storage/lset.go:10-75 | success stores the rewritten list under this key only; failure changes nothing |
| Storage.Client.SAdd | internal/storage/sadd.go:10-81 | only this key changes, to a listing of the union |
| Storage.Client.SRem | internal/storage/srem.go:10-97 | only this key changes, to a listing of the rest, or disappears |
| Storage.Client.ZAdd | internal/storage/zadd.go:17-110 | only this key changes, to a representation of the updated map |
| Storage.Client.ModifyInteger | internal/storage/utils.go:229-273 | only this key changes, by one counter step; an empty key is refused |
| Storage.Client.Del | internal/storage/del.go:33-55 | exactly the named keys of this database go, and the reply counts the keys that existed, once each, modulo 2^32; one key the store rejects makes the call fail and leaves everything as it was |
| Storage.Client.FlushAll | internal/storage/flushall.go:26-39 | the delete-first loop ends, with this database empty and all others as they were |
| Storage.Client.LLen | internal/storage/llen.go:26-44 | the signed header count, 0 without a header |
| Storage.Client.Expire | internal/storage/expire.go:10-33 | cancels the table's timer, installs deadline and timer, touches no value and keeps the invariant |
| Storage.Client.Persist | internal/storage/persist.go:9-31 | cancels and forgets the table's timer and says whether there was one |
| Storage.Client.TTL | internal/storage/ttl.go:10-34 | the 32-bit difference to the stored deadline, 0 when past or absent |
| Storage.Client.CallbackDelete | internal/storage/expire.go:29-31 | the second half of the callback deletes the registered key in the registered database and nothing else, as long as the store holds no key it would not take |
| Storage.DriveList | internal/storage/lpush.go:10-62 | any sequence of list calls on an absent key replies as a plain sequence, leaves its encoding, and touches no other key |
| Storage.DriveMixed | internal/storage/srem.go:10-97 | any sequence of list and set calls on an absent key is a mixed run of a sequence, and touches no other key |
| Storage.DriveSorted | internal/storage/zadd.go:17-110 | any sequence of ZADD calls on an absent key is a run of additions, and touches no other key |
| Storage.DriveCounter | internal/storage/utils.go:229-273 | any sequence of counter calls is the run of counter steps, and touches no other key |
| Storage.DriveTimers | internal/storage/utils.go:113-125 | EXPIRE, PERSIST, writes, clock ticks and both callback halves in any order, as methods of the client, are a run of the expiry machine and keep its invariant |
| Storage.DriveTimed | internal/storage/expire.go:10-33 | list and set calls on a key, EXPIRE, PERSIST, writes to other keys, ticks and callback halves, as methods of the client in any order, follow the timed sequence and keep the invariant |
| Service.TablesAgree | internal/service/handler.go:38-120 | every command has an arity entry and every arity entry a command |
| Service.NormalizeIdempotent | internal/service/utils.go:32-34 | a command replayed under its normalized name finds the same table entry |
| Service.NormalizeExactly | internal/service/utils.go:32-34 | blanks around a name are dropped, small letters become capitals, everything else stays |
| Service.AcceptedExactly | internal/service/handler.go:80-118 | how many arguments each of the 32 commands takes, and that there are no others |
| Service.NotRun | internal/service/apply.go:11-47 | each mistake gets its own error and changes nothing, MULTI and DISCARD answer OK, EXEC outside MULTI answers nothing, an accepted command in MULTI mode is queued and not run |
| Service.IssueRunsEach | internal/service/apply.go:49-49 | outside MULTI mode every accepted command is run, in order, with the arguments as given, with or without any |
| Service.ExecRunsEach | internal/service/exec.go:8-10 | EXEC runs each queued command in order, provided each has an argument |
| Service.DoReturnsUnlessDo | internal/service/do.go:9-25 | re-dispatch has a result exactly when it is not a DO with arguments, and then without recursion |
| Service.ReplayReturnsUnlessDo | internal/service/exec.go:8-11 | a replay does not return if and only if the queue holds a DO with an argument |
| Service.ApplyReturnsUnlessDo | internal/service/do.go:14-24 | a call does not return if and only if it is EXEC in MULTI mode over a queue holding a DO with an argument, or an accepted DO outside MULTI mode |
| Service.ExecIsIssueAll | internal/service/exec.go:3-13 | EXEC gives the replies, final storage and selected database of issuing the queue one by one with MULTI off, for every queue of commands with an argument; mode and queue stay |
| Service.ReplayExact | internal/service/do.go:9-12 | without DO in the queue, the replies agree if and only if every queued command has an argument |
| Service.AcceptedExceptions | internal/service/do.go:9-25 | PING and FLUSHALL are accepted without an argument and answered with an error on replay; DO with any argument is accepted and does not return outside MULTI mode |
| Service.ShortCommands | internal/service/handler.go:101-118 | the accepted commands without argument are PING and FLUSHALL |
| Service.QueueIsHistory | internal/service/apply.go:15-47 | over every history, MULTI is on exactly if one came since the last DISCARD or Clear, and the queue is exactly the accepted commands since then, in order |
| Service.QueueInvariant | internal/service/apply.go:17-47 | a non-empty queue implies MULTI on, and every queued command is in the table with valid arity and none of MULTI, EXEC, DISCARD |
| Service.ApplyMovesMode | internal/service/apply.go:10-50 | every returning call moves mode and queue by one step of that history |
| Service.AnswerIsApply | internal/service/apply.go:10-50 | the replies, storage and database after a call can be read off the history of the connection, without a session |
| Server.Handler.Apply | internal/service/apply.go:10-50 | the method computes exactly the specified outcome, session and replies, for every implementation of the commands |
| Server.Handler.Exec | internal/service/exec.go:3-13 | the loop over the queue is the specified replay, and does nothing outside MULTI |
| Server.Handler.Do | internal/service/do.go:9-25 | re-dispatch under the normalized name |
| Server.Handler.Clear | internal/service/clear.go:3-7 | MULTI off, queue empty, no context |
| Server.Pool.Get | internal/service/pool.go:26-30 | an idle handler that is in the pool no longer, for the new connection's database; no other handler is touched |
| Server.Pool.Free | internal/service/pool.go:32-35 | the handler is pooled only after it was cleared |
| Server.Server.OnAccept | internal/app/server.go:108-120 | the connection gets an idle handler on database 0 that no connection owned; ownership and isolation kept |
| Server.Server.OnClosed | internal/app/server.go:133-141 | an owned handler goes to the pool once; an unknown connection changes nothing |
| Server.Server.Close | internal/app/server.go:143-151 | every owned handler is cleared and forgotten, none is pooled |
| Server.Server.OnHandler | internal/app/server.go:45-105 | a request leaves the replies, storage and database that its own connection's history calls for, touches its own handler only, and fails on an unknown connection |
| Server.Isolation | internal/app/server.go:108-151 | the history of a connection, hence its queue, is made of its own requests alone |
| Server.QuietReturns | internal/service/do.go:14-24 | if no connection asked for DO and none does, every request returns |
| Server.Drive | internal/app/server.go:45-157 | every interleaving of accepts, closes, shutdowns and requests gives the replies, in order, and the final storage of a reference that keeps one storage and a history and database per open connection, leaves exactly its connections open, and ends when the reference does; no handler has two owners or is pooled while owned, pooled ones are idle |

## Left out

- LMDB: environment, the 4 GiB map size and its errors, durability. The store is a map and every transaction succeeds, but for a DEL of a key that LMDB does not take; which keys those are is a parameter of Storage.Client.Del. The other commands are not modelled on such keys beyond the refusal of the empty key.
- ListRuns.DequeRefinement: the number of values ever pushed stays below 2^63, the range of the stored count; likewise for the set and sorted-set runs. Items are shorter than 2^32 bytes, the range of the length field.
- Storage.Client.LPush: the type check and the write are two transactions in the code and one step here, so another connection cannot come in between; the same for RPUSH.
- SortedSets.SortEntries: the library's sort is replaced by an insertion sort with the same comparison.
- Sets.DecodeMembers: SADD and SREM each have their own copy of this loop, and of the re-encoding loop; the model has one. The same goes for the clamping assignments of LRANGE and ZRANGE.
- Service.ExecIsIssueAll: the commands themselves are a parameter that must not look at the name it was called by; all commands of internal/service read their arguments from the second on, and `Service.TailReadersIgnoreName` says that such commands qualify.
- Server.Server.OnAccept: the ids of connections open at the same time are assumed distinct. The server's table is keyed by id, so two open connections with one id would share the handler of the later one, which a model keyed by id cannot tell apart. The clock-based generator is not modelled.
- Server.Handler.Apply: requires a context, which Pool.Get sets; a request racing with Close is not modelled.
- Context cancellation, which only adds early exits that leave the store unchanged.
- Networking: reading requests, writing replies, the first-byte test for arrays, the lookup retries, and reuse of argument buffers after a command returns.
- The command wrappers in internal/service: parsing of integer and float arguments, EX and PX of SET, the WRONGTYPE re-check of LPUSH and RPUSH, the -1 and -2 of TTL, reply formatting other than arrays.
- GET, SET, EXISTS, APPEND and PING: single reads or writes without structure.
- Unicode white space and case mapping in command names; names are trimmed and upper-cased as ASCII.
- Data races on the flag of a timer beyond the two-step callback, and the garbage collector emptying the pool.
