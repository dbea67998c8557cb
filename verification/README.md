# A verified model of sahDB's store

sahDB is a single-threaded in-memory key-value store. Entries live in a chained hash table of 101 buckets;
entries with an expiry time are also held by an indexed binary min-heap, which orders them by that time and
in which every entry knows its own slot. Reads delete an expired entry as a side effect, through both
structures. `SAVE` prints the table as framed text lines, and a restart with rebuild parses those lines and
replays them. This project models that core in Dafny and proves what it promises, over single calls and over
whole runs of requests.

Check it with `dafny verify dfyconfig.toml`.

## How the model is laid out

The code that changes things in place is modelled by classes and methods with the same loops and branches;
each method is proved against a specification on values, and the main theorems are about those values.

| files | content |
|---|---|
| `Common`, `Djb2`, `Decimal`, `Tokens` | constants, the string hash, `%zu` and `atol`, `strtok` and `tokenize` |
| `HeapOrder`, `Ttl`, `Drain` | heap order on sequences; the indexed heap on an array; popping it empty |
| `Table`, `Replies` | the hash table as a value: a sequence of records per bucket, and what each operation does and answers |
| `Hash` | the linked hash table, class `Database`, sharing its entries with the heap, and the joint invariant `Valid` |
| `Commands`, `Protocol` | requests as commands; what each sequence of words asks for and is answered, word by word |
| `Db`, `Conversation` | the handlers, the dispatcher, the server's loop over requests; whole exchanges of texts |
| `Reference`, `Invariants` | the store as a finite map and the refinement; what runs keep; reads over runs |
| `SaveFormat`, `Pieces`, `RoundTrip` | the file text, reading a line of any length back in pieces, and the round trip |
| `Survival`, `Losses` | which tables come back from the file, exactly; runs of requests whose file loses something |
| `Restart` | what a restart means for each read and for whole runs of requests |
| `Dbsave` | printing into the buffer and replaying the file, in place |

`Database.Valid` is the joint invariant: every bucket heads a null-terminated list of live entries in the
order of the ghost chain, keys are unique and in the bucket they hash to, `count` is the number of live
entries and the total chain length, the heap is ordered, its capacity is 16*2^k, its slots and the entries'
`heap_index` fields are inverse to each other, an entry outside the heap has `heap_index == SIZE_MAX`, and every entry in the heap is
live. `live` is the set of entries that are not freed: `free` removes an entry from it, so
`NoDangling` (every heap member is live) says that the heap holds nothing that was freed.

Conventions:

- A C string is its bytes before the terminating NUL, a Dafny `string`; a request, a key or a value holds no NUL.
- `long`, `time_t` and `size_t` have 64 bits and `char` is signed, as on the usual Linux targets.
- The clock is an argument, read once for a command and once for a rebuild. The theorems about runs take
  readings that never decrease, and those about restarts take readings that are not negative and below LONG_MAX.
- `now + duration` in EXPIRE is undefined in C when it overflows; the model wraps it (two's complement).
- `atol` outside the range of `long` is undefined by section 7.22.1 of ISO/IEC 9899:2011. The model saturates,
  and the round trip of "never expires" rests on that: -1 prints as 2^64-1, which must read back as LONG_MAX.
- Allocation succeeds.

## What does not hold, and exactly when

- A DELETE frees an entry and leaves it in the heap exactly when the entry is in the heap with expiry LONG_MAX,
  which `hash_delete` takes for "no expiry" (`src/hash.c:162`). `Database.HashDelete` states this both ways,
  `Invariants.SomeRunStrands` gives a run that does it, `Invariants.StepKeepsDeletesSafe` says which commands
  make it possible (an EXPIRE that computes LONG_MAX), and `Invariants.RunStaysSafe` proves every run without it
  safe. `Db.Serve` serves exactly the runs that strand nothing and overrun no buffer.
- An EXPIRE that computes -1 puts an entry into the heap under the mark for "never". The heap then no longer
  holds exactly the entries with an expiry time; this is the only command that breaks it
  (`Invariants.StepKeepsHeapExact`, and the run in `Invariants.SomeHeapIsInexact`). A restart breaks it too, since a
  rebuild puts nothing into the heap: exactly if it keeps any entry that was not marked LONG_MAX
  (`Restart.ReloadKeepsHeapExact`).
- SET keeps an existing entry's expiry, even one already in the past (`src/hash.c:40-43`). So a SET that answers
  OK can store a value that no read returns: exactly when the entry has expired without having been collected
  (`Reference.SetVisibleUnlessExpired`, `Reference.SetCanBeLost`, and the run in `Reference.SomeSetIsLost`).
- A restart shows. GET ex of a key that never expires answers NULL before a save and rebuild and LONG_MAX in
  digits after it (`Restart.SomeRestartShows`), because -1 and LONG_MAX trade places (`src/dbsave.c:119-122`,
  `src/hash.c:79-87`); a second restart restores the answer (`Restart.ReadAfterTwoRestarts`). `Restart.ReadAfterRestart`
  says for each key and each read when the answer is the same: for GET and EXISTS when the expiry is not below -1,
  for GET ex when it is a real time. `Restart.RunAfterRestart` says when no run of requests can tell, GET ex apart:
  exactly when no entry that has expired is still stored.
- A negative expiry other than -1 comes back from a rebuild as LONG_MAX, so a record that had expired returns
  for good (`Restart.DropsExactlyExpired`, and the run in `Restart.SomeRecordReturns`).
- SET accepts `!` and `|`, which separate fields and records in the file. A value `a!b` makes the rebuild delete
  its key (`Losses.SomeBangIsFatal`). Whatever a rebuild keeps has neither (`Survival.KeptFieldsAreClean`), and one
  bucket's line is parsed back exactly when no field of it is empty or holds one (`SaveFormat.ParseInvertsPrint`).
- A bucket line of more than 8191 bytes is read in pieces. A cut next to a bar does no harm; a cut inside a value
  gives the key the first half and makes a key of the second (`Survival.ValueIsCut`, `Survival.SecondHalfIsAKey`); a cut anywhere else leaves a
  record without a value, which the code passes to `strdup` as NULL (`Survival.DefinedExactly`). Sixteen SETs are
  enough (`Losses.SomeSaveIsCut`). The one record that survives a cut is key `1` with value `-1` and expiry
  LONG_MAX, cut after the minus sign.
- Together: a table of which a rebuild drops nothing comes back from its file exactly when no field is empty or holds
  `!`, `|` or a newline and every cut is harmless (`Survival.ComesBackExactly`); for a table filled by requests the
  fields need only be free of the two separators (`Restart.RequestTablesComeBack`). With clean fields the cuts alone
  decide, whatever has expired (`Survival.CleanTableComesBack`).
- SAVE prints each bucket into 1024*(count+1) bytes, with an `int` to count them. The bytes are enough for everything
  requests store, as long as no bucket takes more than 2^31-1 of them (`Db.RequestFieldsFit`), but a line of a file can load a record that is too long for it
  (`Losses.LongRecordOverruns`: one record, exactly from 2025 bytes of value on).
- The expiry is printed into an array of 20 bytes, NUL included, which suffices exactly below 10^19 read as an
  unsigned number (`Decimal.ScratchHolds`): -1, the mark for "never", needs 21.
- EXPIRE of a missing key answers with the status of the existence check but returns 0
  (`src/command.c:256-262`); `Commands.Respond` follows the code.

Where code and documentation disagree, the model follows the code: the comment at `src/dbsave.c:106` and
`test/test_save_kv.py:8` expect `key:value` in the savefile, but the code writes `key!value!expiry`;
`include/ttl.h:49-53` describes `heap_pop` as the way expired entries leave the store, but nothing calls it;
`test/methods.py:16-20` expects prose answers where the handlers now send `OK` and `ERR`.

## Model

| member | source | states |
|---|---|---|
| `Common.WrapIsCongruent` | src/hash.c:245 | the wrapped sum differs from the true one by a multiple of 2^64 |
| `HeapOrder.DepthIsFloorLog` | include/ttl.h:24-26 | the number of steps from slot i to the root is floor(log2(i+1)) |
| `HeapOrder.StepsFit` | src/ttl.c:22-27 | k steps towards the root are possible from slot i exactly when 2^k <= i+1 |
| `HeapOrder.DepthMonotone` | include/ttl.h:24 | a slot further right is at least as deep |
| `HeapOrder.StepDownDoubles` | include/ttl.h:25-26 | going down one level and then k more multiplies the slot number (from one) by at least 2^(k+1) |
| `HeapOrder.RootIsMinimum` | src/ttl.c:15-19 | in an ordered heap the root is no larger than any slot |
| `HeapOrder.UpStep` | src/ttl.c:22-27 | one swap upwards moves the only out-of-order place to the parent |
| `HeapOrder.DownStep` | src/ttl.c:29-44 | one swap with the smaller child moves the only out-of-order place to that child |
| `HeapOrder.SwapLastApart` | src/ttl.c:91-93 | moving the last slot into the hole leaves everything in order except around the hole |
| `HeapOrder.DoublingStaysDoubled` | src/ttl.c:49 | doubling keeps the capacity of the form 16*2^k |
| `Ttl.Entry.constructor` | src/hash.c:178-184 | a new entry never expires, has no successor and is outside the heap |
| `Ttl.TtlHeap.constructor` | src/ttl.c:108-122 | a valid, empty heap of capacity 16 |
| `Ttl.TtlHeap.SwapNodes` | src/ttl.c:6-13 | exchanges two slots and keeps slots and back-pointers inverse to each other |
| `Ttl.TtlHeap.CompareTtl` | src/ttl.c:15-19 | true exactly when the first slot expires no later than the second |
| `Ttl.TtlHeap.ShiftUp` | src/ttl.c:22-27 | restores heap order from one place out of order with its parent, in at most floor(log2(i+1)) sifting steps |
| `Ttl.TtlHeap.Smallest` | src/ttl.c:30-38 | picks a slot among a node and its children whose expiry none of them undercuts |
| `Ttl.TtlHeap.Heapify` | src/ttl.c:29-44 | restores heap order from one place out of order with its children, in k sifting steps with (i+1)*2^k <= size |
| `Ttl.TtlHeap.Grow` | src/ttl.c:48-54 | capacity doubles, so that it stays 16*2^k, and every entry keeps its slot and back-pointer |
| `Ttl.TtlHeap.Append` | src/ttl.c:56-58 | the entry is in the first free slot, and at most the order above it is off |
| `Ttl.TtlHeap.HeapInsert` | src/ttl.c:47-63 | a valid heap holding one entry more, in at most floor(log2(new size)) sifting steps |
| `Ttl.TtlHeap.HeapPop` | src/ttl.c:65-77 | null exactly for an empty heap; else an entry none expires before, removed and marked as outside; at most floor(log2(old size)) sifting steps follow the exchange with the last slot |
| `Ttl.TtlHeap.HeapRemove` | src/ttl.c:79-105 | removes exactly the entry and marks it, whichever way sifting goes; an entry not in the heap leaves it untouched and is reported; at most floor(log2(old size)) sifting steps follow the exchange with the last slot |
| `Ttl.TtlHeap.SwapOutLast` | src/ttl.c:91-93 | the entry leaves the used slots, which stay indexed and in order except around its old slot |
| `Ttl.TtlHeap.RemoveLast` | src/ttl.c:85-89 | removing the last slot needs no sifting |
| `Ttl.TtlHeap.Restore` | src/ttl.c:98-102 | the up-or-down choice restores heap order either way |
| `Ttl.TtlHeap.RootIsEarliest` | src/ttl.c:65-68 | the root expires no later than any entry in the heap |
| `Ttl.TtlHeap.SizeIsCardinality` | src/ttl.c:79-82 | no entry is in the heap twice |
| `Drain.PopAll` | src/ttl.c:65-77 | popping to the end lists every entry once, by non-decreasing expiry, each marked as outside the heap |
| `Djb2.StringFoldingHash` | src/hash.c:7-14 | the loop's index is the bucket of the key, the folded accumulator mod 101 |
| `Djb2.SignedChar` | src/hash.c:10-12 | a byte read through a signed char lies in -128..127 and is the byte modulo 256 |
| `Djb2.WrappingShiftAdd` | src/hash.c:12 | shift-and-add with wrap-around is multiplication by 33 with wrap-around |
| `Djb2.FoldClosedForm` | src/hash.c:7-14 | the accumulator is 5381*33^n plus the weighted sum of the n signed bytes, reduced mod 2^64 |
| `Djb2.Bucket` | include/hash.h:23 | every key's bucket is below 101 |
| `Table.Position` | src/hash.c:100-101 | a chain walk stops at the first node with the key, and at the end only if there is none |
| `Table.FindInsert` | src/hash.c:16-49 | a full table is unchanged; otherwise the key has the new value and, if it was there, its old expiry; every other key is untouched and the count grows by one only for a new key |
| `Table.NewRecordGoesLast` | src/hash.c:45-48 | a new key is at the end of its chain, without expiry, outside the heap |
| `Table.NewKeyIsStored` | src/hash.c:18 | a new key is refused exactly from 2^63-2 stored entries on |
| `Table.UpdateKeepsPlace` | src/hash.c:40-43 | SET of a stored key changes the value where the record stands; no record moves and no other changes |
| `Table.StampKeepsPlace` | src/hash.c:245 | an expiry update changes the record where it stands |
| `Table.FindDelete` | src/hash.c:135-173 | the key is gone, every other key is untouched, and the count drops by one exactly if the key was there |
| `Table.FindCollect` | src/hash.c:51-62 | a lookup deletes its key exactly when the entry has expired, and touches no other key |
| `Table.FindSetExpiry` | src/hash.c:245 | an expiry update changes one key's expiry and heap membership and nothing else |
| `Table.DeleteAfterSetExpiry` | src/hash.c:57-59 | taking an expired entry out of the heap first does not change what the delete leaves |
| `Table.SetExpiryTwice` | src/hash.c:241-248 | leaving the heap and entering it again leaves only the last expiry |
| `Table.ChainWithinTotal` | src/dbsave.c:107 | no chain is longer than the count |
| `Table.TotalIsMapSize` | include/hash.h:16-21 | the count is the number of distinct stored keys |
| `Decimal.DecValue` | src/dbsave.c:120 | the digits printed for a number spell that number |
| `Decimal.AtolOfDec` | src/dbsave.c:20 | reading a printed number back gives it, cut to the range of a long |
| `Decimal.AtolOfPrintZu` | src/dbsave.c:20 | a printed time reads back as itself, and every negative one as LONG_MAX |
| `Decimal.PrintZuSpells` | src/dbsave.c:120 | a printed time spells the number modulo 2^64 |
| `Decimal.AtolOfSpelled` | src/command.c:254 | after white space, with a sign or none, zeros and any text behind, a number is read with its sign and cut to the range of a long |
| `Decimal.AtolOfNoNumber` | src/command.c:254 | without a digit after white space and sign, 0 |
| `Decimal.PrintZuLength` | src/dbsave.c:118-120 | a printed time has at most 20 digits |
| `Decimal.DecLength` | src/dbsave.c:120 | a number has at most k digits exactly when it is below 10^k |
| `Decimal.ScratchHolds` | src/dbsave.c:118-120 | the printed time and its NUL fit 20 bytes exactly when it is below 10^19 as an unsigned number; -1 does not |
| `Replies.CmdCtx.constructor` | src/db.c:9-13 | a request's context starts empty with status OK |
| `Replies.FillCmdCtx` | src/command.c:10-44 | a nonempty text and its status are stored as they are; an empty text stores neither |
| `Hash.Database.constructor` | src/hash.c:265-274 | an empty table and heap satisfy the joint invariant |
| `Hash.Database.FindEntry` | src/hash.c:139-145 | returns the entry for the key, null exactly if there is none, and its predecessor in the chain |
| `Hash.Database.FindEntryOrLast` | src/hash.c:37-40 | stops at the key's entry if there is one, else at the end of the chain |
| `Hash.Database.AddKvInArr` | src/hash.c:16-49 | the joint invariant holds, the table is the inserted one, and the code tells full, updated and new apart |
| `Hash.Database.AddNew` | src/hash.c:32-36 | linking at an empty or nonempty chain's end adds exactly this entry to table and live set |
| `Hash.Database.LinkAtEnd` | src/hash.c:45-48 | the relinked chains are acyclic lists that hold the inserted table |
| `Hash.Database.SetValue` | src/hash.c:40-43 | replacing a value changes no expiry, no position, no heap slot and no count |
| `Hash.Database.HashInsert` | src/hash.c:175-210 | as the table's insert, answered as the source answers; touches neither heap nor any expiry or back-pointer |
| `Hash.Database.Unlink` | src/hash.c:153-160 | unlinking keeps the other nodes' order and frees exactly this one |
| `Hash.Database.Discard` | src/hash.c:161-166 | nothing freed stays in the heap, unless the entry was in it with expiry LONG_MAX |
| `Hash.Database.HashDelete` | src/hash.c:135-173 | the table's delete and its answer; the heap holds something freed afterwards exactly if the entry was in it with expiry LONG_MAX |
| `Hash.Database.LazyExpireAndDelete` | src/hash.c:51-62 | deletes the entry exactly if its time has come, keeping the joint invariant even for LONG_MAX |
| `Hash.Database.HashGetKv` | src/hash.c:212-225 | the entry exactly if it is stored and unexpired; collects it otherwise |
| `Hash.Database.HashGet` | src/hash.c:95-114 | answers the value exactly for stored, unexpired keys, keeping the joint invariant |
| `Hash.Database.HashGetExpiry` | src/hash.c:65-93 | answers the expiry in decimal, or NULL for "never", exactly for stored, unexpired keys |
| `Hash.Database.HashExists` | src/hash.c:116-133 | TRUE exactly for stored, unexpired keys, keeping the joint invariant |
| `Hash.Database.HashUpdateExpiry` | src/hash.c:227-262 | a stored, unexpired key gets the new expiry and is in the heap under it; any other key is collected |
| `Hash.Database.Reschedule` | src/hash.c:240-248 | whether or not the entry was in the heap, it is in it once under the new expiry |
| `Hash.Database.Unschedule` | src/hash.c:241-243 | leaving the heap keeps the joint invariant and every other membership |
| `Hash.Database.Schedule` | src/hash.c:245-248 | entering the heap keeps the joint invariant and every other membership |
| `Hash.Database.SetExpiryOutsideHeap` | src/dbsave.c:27-29 | a rebuild's expiry write does not reach the heap, and the joint invariant still holds |
| `Hash.Database.Located` | src/hash.c:97-101 | a live entry is reachable at its key's place, so a lookup of its key finds it |
| `Hash.Database.OneRecordChanged` | src/hash.c:40-43 | rewriting one entry's fields changes one record and breaks no chain |
| `Hash.Database.Linked` | src/hash.c:45-48 | the heap after linking satisfies the table invariant |
| `Hash.Database.Unlinked` | src/hash.c:153-159 | after unlinking, every chain is still a list of its records and every live entry reachable |
| `Tokens.SplitOfWeave` | src/dbsave.c:13-33 | tokens separated by delimiters come back from repeated strtok as they are |
| `Tokens.SplitWeaves` | src/common.c:41-45 | every string is gaps and tokens in turn, the tokens being strtok's |
| `Tokens.SplitIsTheOnlyWeave` | src/common.c:41-45 | strtok's list is the only way to cut the string into maximal delimiter-free runs |
| `Tokens.SplitGivesTokens` | src/common.c:41-45 | every token is nonempty and free of delimiters |
| `Tokens.Tokenize` | src/common.c:38-47 | the array holds the first 16 tokens in order |
| `Tokens.BlanksAreThree` | src/common.c:41 | space, tab and newline part the words of a request, and nothing else does |
| `Tokens.ThreeWords` | src/common.c:38-47 | three words with blanks between and around them come out as these three words |
| `Tokens.RetokenizeArguments` | src/common.c:38-47 | joining the tokens with single spaces and tokenizing again gives the same list |
| `Tokens.SplitLength` | src/common.c:38-47 | the tokens together are no longer than the request |
| `Commands.EqualButForCase` | src/db.c:42 | the comparison of names tells apart everything but the two cases of one letter |
| `Commands.DispatchIgnoresCase` | src/db.c:39-49 | a name finds a handler exactly when it matches that handler's name, so no entry shadows another |
| `Commands.HandlerOfName` | src/command.c:292-320 | each of the nine names, in any case of its letters, finds its own handler, and no other name does |
| `Protocol.SetIs` | src/command.c:95-112 | a request is SET k v exactly if it is these three words, the first in any case |
| `Protocol.GetIs` | src/command.c:126-129 | a request is GET k exactly if it is these two words |
| `Protocol.GetExpiryIs` | src/command.c:130-133 | a request is GET k ex exactly if it is these three words, the last in any case too |
| `Protocol.ExistsIs` | src/command.c:204-219 | a request is EXISTS k exactly if it is these two words |
| `Protocol.DeleteIs` | src/command.c:222-239 | a request is DELETE k exactly if it is these two words |
| `Protocol.ExpireIs` | src/command.c:242-263 | a request is EXPIRE k with some seconds exactly if it is three words and the third reads as these seconds |
| `Protocol.SaveIs` | src/command.c:266-277 | a request is SAVE exactly if it is this one word |
| `Protocol.SaysIs` | src/db.c:39-62 | every other request leaves the store alone |
| `Protocol.SetAnswers` | src/hash.c:188-208 | OK with status 0, or ERR with status 100 exactly for a new key in a full table |
| `Protocol.GetAnswers` | src/hash.c:102-112 | the value with status 0 exactly for a stored key whose time has not come, else ERR with status 4 |
| `Protocol.GetExpiryAnswers` | src/hash.c:72-91 | NULL or the expiry in digits with status 0 for such a key, else ERR with status 4 |
| `Protocol.ExistsAnswers` | src/hash.c:123-131 | TRUE with status 0 for such a key, else FALSE with status 4 |
| `Protocol.DeleteAnswers` | src/hash.c:146-171 | OK with status 0 exactly for a stored key, expired or not, else ERR with status 4 |
| `Protocol.ExpireAnswers` | src/command.c:256-262 | OK with status 0 for a stored key whose time has not come, else FALSE with status 4 |
| `Protocol.SaveAnswers` | src/command.c:277-284 | OK with status 0 |
| `Protocol.TalkAnswers` | src/command.c:56-92 | bare HELP, EXIT and SHUTDOWN have status 40, 41 and 42, and the last two say Bye... and Goodbye... |
| `Protocol.RefusedAnswers` | src/command.c:95-275 | the text and status of every command with a wrong number of words |
| `Protocol.OtherAnswers` | src/db.c:50-57 | a name that is no command's has ERR with status 6; GET and HELP with words they do not know have no answer |
| `Protocol.ReturnCodes` | src/db.c:62-65 | the dispatcher returns the status of the answer, except for HELP and for EXPIRE of a missing key |
| `Protocol.OnlyShutdownStops` | network/c/network.c:129 | only a bare SHUTDOWN is answered with status 42 |
| `Protocol.ExpireSpelled` | src/command.c:254 | EXPIRE with a number, signed or not, means that number of seconds |
| `Protocol.ExpireStamps` | src/hash.c:245 | the key's new expiry is the clock plus, or minus, the spelled number, and the key is in the heap |
| `Reference.RepresentsOnlyItsMap` | src/hash.c:95-114 | a table stands for exactly one map |
| `Reference.StepRefines` | src/db.c:27-66 | one command on the chained table is the same command on the map, with the same answer |
| `Reference.ApplyKeepsWf` | src/db.c:27-66 | every command keeps keys unique and in the bucket they hash to |
| `Reference.RunRefines` | src/db.c:27-66 | after any run the table stands for the map the same run gives, answers like it, and its count is the map's size |
| `Reference.ReadsAreInvisible` | src/hash.c:51-133 | GET, GET ex and EXISTS answer from the entries visible now, and their deletions change nothing visible now or later |
| `Reference.ExpireActsOnVisible` | src/command.c:242-263 | EXPIRE succeeds exactly on visible keys and changes that key's expiry and nothing else |
| `Reference.SetVisibleUnlessExpired` | src/hash.c:40-43 | a SET value is visible exactly if the key was new or its expiry lies ahead |
| `Reference.SetThenGet` | src/command.c:95-137 | after SET k v, every GET k before the next write to k returns v until the expiry k had, and misses from then on |
| `Reference.SetCanBeLost` | src/hash.c:40-43 | a SET on an expired, uncollected key answers OK and no GET ever returns its value |
| `Reference.SomeSetIsLost` | src/hash.c:40-43 | a concrete run whose last SET is lost |
| `Reference.MissingStaysMissing` | src/command.c:116-219 | once a read reports a key missing, every later read does until a SET of it |
| `Reference.HoldsOverRun` | src/db.c:27-66 | no command on another key, and no read, changes a key's value or expiry, except to collect it after its time |
| `Invariants.FindAfter` | src/db.c:27-66 | after any command a key holds what it held, or nothing, or what a SET or EXPIRE of that key left |
| `Invariants.StepKeepsHeapExact` | src/hash.c:227-258 | "in the heap exactly when the expiry is not -1" survives a command exactly if it is no EXPIRE that computes -1 |
| `Invariants.RunKeepsHeapExact` | src/hash.c:227-258 | kept over every run that never computes -1, from an empty store on |
| `Invariants.SomeHeapIsInexact` | src/hash.c:245-248 | SET and an EXPIRE that computes -1 leave an entry that never expires in the heap |
| `Invariants.StepKeepsDeletesSafe` | src/hash.c:160-163 | no DELETE can strand an entry after a command exactly if the command is no EXPIRE that computes LONG_MAX |
| `Invariants.RunStaysSafe` | src/hash.c:160-163 | no DELETE strands an entry in any run that never computes LONG_MAX |
| `Invariants.SomeRunStrands` | src/hash.c:160-163 | SET, EXPIRE to LONG_MAX and DELETE is a run that does |
| `Invariants.RunKeepsFields` | src/command.c:95-112 | whatever holds of all SET arguments holds of all stored keys and values |
| `Invariants.SetStoresTokens` | src/command.c:95-112 | what SET stores is nonempty, free of blanks and together shorter than 512 bytes |
| `Invariants.OrderOfOthersKept` | src/hash.c:16-49 | two keys a command does not name keep their order in the chain |
| `SaveFormat.ParseOfPrintRecord` | src/dbsave.c:15-17 | a printed record gives back key, value and expiry text |
| `SaveFormat.SavedText` | src/dbsave.c:86-93 | the file is the line SahDB001 and the buckets' texts in the order of the buckets |
| `SaveFormat.SavedBucket` | src/dbsave.c:111-128 | a bucket is nothing, or its records parted by bars between two frame lines; a record is key, value and expiry parted by bangs, the expiry -1 for LONG_MAX and in digits otherwise |
| `SaveFormat.ParseOfPrintChain` | src/dbsave.c:11-33 | a printed bucket gives back all its records in order, for any chain length |
| `SaveFormat.ParseInvertsPrint` | src/dbsave.c:11-33 | it does so exactly when no field is empty or holds a separator |
| `SaveFormat.LoadPrinted` | src/dbsave.c:18-31 | replaying a printed record appends what is left of it to its chain |
| `Pieces.PiecesOfChain` | src/dbsave.c:47-58 | a bucket line of any length, read in pieces, turns into what its records turn into one by one |
| `Pieces.CutsOfChain` | src/dbsave.c:47-48 | no record is cut exactly when every cut of the line falls next to a bar |
| `Pieces.LineIsReadWhole` | src/dbsave.c:47-58 | a line of any length gives back its records exactly when every cut falls next to a bar |
| `Pieces.CutRecord` | src/dbsave.c:15-18 | a cut record has keys and values in all its pieces exactly when it is cut once and inside the value, and then is read as two known records |
| `Pieces.CutTwice` | src/dbsave.c:15-18 | a record cut twice leaves a piece without a value |
| `Pieces.ShortLineIsHarmless` | src/dbsave.c:47-48 | a line that fits the buffer is not cut |
| `RoundTrip.LineBytesOf` | src/dbsave.c:47-52 | fgets takes a line and its newline, or 8191 bytes of it |
| `RoundTrip.ReadLine` | src/dbsave.c:47-58 | a line of at most 8191 bytes is processed exactly once, and the rebuild is defined exactly if it is defined on the line and on the rest |
| `RoundTrip.ReadLastLine` | src/dbsave.c:47-58 | a last line without a newline is processed too |
| `RoundTrip.ReadPieces` | src/dbsave.c:47-58 | a data line of any length is replayed piece by piece, and no piece is taken for a frame line |
| `RoundTrip.BucketLineIsData` | src/dbsave.c:7-8 | no bucket line spans two lines, and none ends like a frame line |
| `RoundTrip.ReadFramed` | src/dbsave.c:7-10 | a frame turns the toggle on, its line is replayed once, and the toggle is off again |
| `RoundTrip.ReadFile` | src/dbsave.c:38-101 | the header and the frames are never parsed as data, every bucket line is parsed once, the toggle ends at 0, and the rebuild is defined exactly if every record read has a key and a value |
| `RoundTrip.LoadFluke` | src/dbsave.c:15-31 | the one record whose halves spell it again comes back from a cut |
| `RoundTrip.LoadChain` | src/dbsave.c:11-33 | replaying a bucket line without harmful cuts rebuilds its chain in order, without what has expired |
| `RoundTrip.SaveThenRebuild` | src/dbsave.c:38-101 | save then rebuild into an empty table is defined and gives every chain in its order, minus what has expired, for lines of any length without harmful cuts |
| `RoundTrip.FindInReload` | src/dbsave.c:5-64 | after save and rebuild each key is found as its own record says: reloaded or dropped |
| `RoundTrip.ReloadIsWf` | src/dbsave.c:5-64 | the rebuilt table has unique keys in the bucket they hash to |
| `Survival.RebuiltFieldsAreClean` | src/dbsave.c:5-64 | whatever text is rebuilt from, no stored field is empty or holds a separator or a newline |
| `Survival.KeptFieldsAreClean` | src/dbsave.c:5-64 | if a table comes back, every record that the rebuild keeps has clean fields |
| `Survival.DefinedExactly` | src/dbsave.c:15-18 | a rebuild from a saved file is defined exactly when every record is cut nowhere, or once and inside its value |
| `Survival.ValueIsCut` | src/dbsave.c:47-48 | a record cut inside its value comes back with the first half of it, unless another's second half spells its key |
| `Survival.SecondHalfIsAKey` | src/dbsave.c:15-18 | the second half comes back as a key of its own with the expiry text for a value, unless it spells a stored key or another second half |
| `Survival.CutIsFluke` | src/dbsave.c:47-48 | if a table with a cut record comes back, it is that one record |
| `Survival.ComesBackExactly` | src/dbsave.c:38-131 | a table of which a rebuild drops nothing comes back exactly when every field is clean and every cut harmless |
| `Survival.CleanTableComesBack` | src/dbsave.c:38-131 | whatever has expired, a table with clean fields comes back exactly when every cut is harmless |
| `Losses.SetAllBuilds` | src/hash.c:45-48 | SETs of new keys of one bucket build its chain in order |
| `Losses.SomeSaveIsCut` | src/dbsave.c:47-48 | sixteen SETs whose file gives the last value back 27 bytes short, and those bytes as a key nobody set |
| `Losses.SomeBangIsFatal` | src/dbsave.c:15-23 | SET k a!b, save and rebuild leave no k |
| `Losses.LongRecordOverruns` | src/dbsave.c:107 | a record that a file line loads can be printed by the next SAVE exactly up to 2024 bytes of value |
| `Restart.DropsExactlyExpired` | src/dbsave.c:22-26 | the rebuilt table has exactly the keys that were unexpired if and only if no stored expiry is below -1 |
| `Restart.ReloadKeepsFields` | src/dbsave.c:119-122 | a key found after a rebuild has its value and real expiry, and the two marks for "never" trade places |
| `Restart.TwoRestarts` | src/dbsave.c:119-122 | two restarts give back every living record with its expiry as it was |
| `Restart.ReadAfterRestart` | src/hash.c:65-133 | each read of each key answers the same after a restart exactly when the stored expiry allows: for GET and EXISTS not below -1, for GET ex a real time |
| `Restart.ReadAfterTwoRestarts` | src/hash.c:65-133 | after two restarts every read, GET ex too, answers as with none exactly when the expiry is not below -1 |
| `Restart.RestartIsInvisible` | src/hash.c:65-133 | GET and EXISTS cannot tell a restart from none exactly when no stored expiry is below -1; GET ex cannot exactly when every record has a real expiry |
| `Restart.SaveRestartRead` | src/dbsave.c:38-101 | the same for each read through the text of the file |
| `Restart.SomeRestartShows` | src/hash.c:79-87 | a SET, a save and a restart change the answer to GET ex from NULL to LONG_MAX in digits |
| `Restart.SomeRecordReturns` | src/dbsave.c:19-29 | EXPIRE to -2, a save and a restart bring back for good a value that GET had lost |
| `Restart.RunAfterRestart` | src/db.c:27-66 | no run of requests can tell a restart from none by anything but GET ex, exactly when nothing stored has expired |
| `Restart.StepKeepsStorable` | src/hash.c:245 | expiries stay at least -1 after a command exactly if it is no EXPIRE that computes less |
| `Restart.RunKeepsStorable` | src/hash.c:245 | kept over every run that never computes an expiry below -1 |
| `Restart.RequestTablesComeBack` | src/dbsave.c:38-131 | a table filled by requests, of which a rebuild drops nothing, comes back from its file exactly when no field holds a separator and every cut is harmless |
| `Restart.ReloadKeepsHeapExact` | src/dbsave.c:27-29 | the heap holds exactly the expiring entries after a rebuild if and only if all that is kept was marked LONG_MAX |
| `Restart.ReloadIsServable` | src/dbsave.c:38-64 | a rebuilt table keeps the facts that serving and saving need |
| `Dbsave.FittingRecordsAreHeld` | src/dbsave.c:107-109 | with records of at most 1024 bytes each, every bucket's buffer suffices exactly when an int can count each bucket's bytes |
| `Dbsave.AppendRecord` | src/dbsave.c:112-126 | the buffer holds what it held, followed by the record and a bar |
| `Dbsave.PrintNodes` | src/dbsave.c:109-128 | the buffer holds the chain's text, needs exactly that many bytes, and the index stays an int |
| `Dbsave.GetKvFromBucket` | src/dbsave.c:103-131 | the bucket's text without its last bar, null exactly for an empty bucket, whenever the text fits 1024*(count+1) bytes and an int |
| `Dbsave.Savefile.FetchDatasetFromMemory` | src/dbsave.c:67-101 | the file is the header and a frame for each nonempty bucket in order |
| `Dbsave.Savefile.LoadOne` | src/dbsave.c:15-31 | one record is replayed through insert, delete and lookup, keeping the joint invariant |
| `Dbsave.Savefile.LoadBucket` | src/dbsave.c:11-33 | every record of a line is replayed, in order |
| `Dbsave.Savefile.ProcessSaveData` | src/dbsave.c:5-36 | a `$` line toggles, and another line is replayed exactly while the toggle is on |
| `Dbsave.Savefile.RebuildFromSavefile` | src/dbsave.c:38-64 | the store is what replaying the whole text gives, the heap is empty, and the joint invariant holds |
| `Dbsave.ParseFields` | src/dbsave.c:15-17 | the three strtok_r calls give the first three fields, null for a missing one |
| `Db.SetKeyValHelper` | src/command.c:95-112 | keeps the joint invariant; table, code and answer are those of the command |
| `Db.GetValFromKeyHelper` | src/command.c:116-137 | keeps the joint invariant; table, code and answer are those of the command |
| `Db.ExistsHelper` | src/command.c:204-219 | keeps the joint invariant; table, code and answer are those of the command |
| `Db.DeleteKeyValueHelper` | src/command.c:222-239 | as the command; the joint invariant fails afterwards exactly if it strands an entry |
| `Db.ExpireKeyVal` | src/command.c:242-263 | keeps the joint invariant at any three readings of the clock; table, code and answer are those of the check, the second check and the stamp |
| `Db.TicksAgree` | src/command.c:242-263 | at one reading the check and the update are the one command |
| `Db.TicksStamp` | src/hash.c:245 | a key alive at both checks gets the third reading plus the seconds |
| `Db.ExpiresBetweenChecks` | src/hash.c:234-239 | EXPIRE answers NULL exactly when the key expires between its two checks |
| `Db.SaveHelper` | src/command.c:266-285 | writes the file exactly for a bare SAVE, and always answers OK |
| `Db.TalkHelper` | src/command.c:56-92 | EXIT and SHUTDOWN answer their own status only without arguments |
| `Db.FindHandler` | src/db.c:39-49 | the scan returns the first name that matches, or 9 |
| `Db.ProcessCommand` | src/db.c:27-66 | any request with a token: table, code and answer are those of its words, the file is written exactly by a bare SAVE, and the heap holds something freed exactly if the command strands an entry |
| `Db.HandleRequest` | src/db.c:4-24 | the same with a fresh context, whose text and status are the answer |
| `Db.RequestFieldsFit` | include/common.h:25-27 | what requests store fits the buffers that SAVE allocates, exactly when an int can count each bucket's bytes |
| `Db.ServeOne` | network/c/network.c:124-125 | an empty request is skipped; any other takes the table's step and gets the answer for its words, and exactly a bare SAVE writes the file |
| `Db.Serve` | network/c/network.c:120-131 | over a run safe up to a SHUTDOWN: every request served takes its step and gets its answer, only the empty ones are skipped, the file holds the table of the last SAVE served or what it held before, a bare SHUTDOWN is the last one served and nothing else ends the loop early, and the joint invariant holds |
| `Db.ShortRunIsSafe` | src/dbsave.c:107-109 | a run that strands nothing, of short fields and few enough to count, is safe |
| `Db.RequestsAreSafe` | network/c/network.c:120-131 | requests are safe while no EXPIRE computes LONG_MAX and there are fewer than two million |
| `Db.KeptByRequests` | network/c/network.c:94-125 | over any number of requests the stored fields stay short, and the deletes safe unless one computes LONG_MAX |
| `Db.RunSnoc` | network/c/network.c:120-131 | serving one request more extends the run and its answers by one step |
| `Db.RootIsEarliestInTable` | src/ttl.c:15-63 | when the heap is exact its root has the earliest expiry in the whole table, and if that lies ahead nothing has expired |
| `Db.RootIsEarliestAfterRun` | src/ttl.c:15-63 | so it is after every run from an empty store that never computes -1 |
| `Db.Start` | network/c/network.c:176-194 | the store starts valid, empty or as the file says, with an empty heap and no delete unsafe |
| `Db.SaveAndRestart` | src/dbsave.c:38-101 | saving and restarting, in place, ends in the reloaded table, with short fields and safe deletes again |
| `Conversation.SetThenGetTexts` | src/command.c:95-129 | the texts `SET k v` and `GET k` are answered OK and v |
| `Conversation.LifeOfAKey` | src/command.c:95-285 | ten texts about a new key, through SET, EXISTS, GET ex, EXPIRE, SAVE, DELETE and the misses after it, and their ten answers |
| `Conversation.SetThenGet` | src/db.c:4-24 | the first two texts through the server's own handling, in place |

## Left out

- Survival.ComesBackExactly: for tables of which the rebuild drops nothing. A record that the rebuild drops may hold separators and still leave nothing behind, so the other direction is stated for kept records only (`Survival.KeptFieldsAreClean`); `RoundTrip.SaveThenRebuild` has no such restriction.
- Survival.ValueIsCut: for fewer than 2^62 entries, so that the second halves, read as keys of their own, do not fill the table. No 64-bit address space holds that many entries of 48 bytes.
- Survival.CleanTableComesBack: for fewer than 2^62 entries, as above.
- Restart.RunAfterRestart: compares answers; the files that SAVE writes differ in the two marks for "never".
- Reference.SetThenGet: asks that the table is not full for this key; a full table refuses the SET, as `Table.FindInsert` says.
- Dbsave.Savefile.RebuildFromSavefile: requires that every parsed record has a key and a value, since the code passes NULL to `strdup` otherwise, and that the heap is empty, as it is at start-up.
- Dbsave.Savefile.FetchDatasetFromMemory: requires that each bucket's text fits its buffer and its `int` index, since the code writes past them otherwise.
- Db.ProcessCommand: requires at least one token, since the code compares an uninitialised pointer for a request of blanks only; an empty request is skipped by the server and by `Db.Serve`.
- Db.Serve: asks that no command up to a SHUTDOWN strands an entry or overruns a buffer, since the code reads freed memory or writes past its buffer afterwards; one reading of the clock per request. EXIT only ends a connection, which is not part of this model.
- Drain.PopAll: a client; the repository has no caller of `heap_pop`.
- Tokens.Tokenize: works on values; the NUL bytes that `strtok` writes into the request are not modelled.
- Dbsave.AppendRecord: the expiry text is a sequence; the code's scratch array of 20 bytes is not part of the loop's model. `Decimal.ScratchHolds` says when it is long enough.
- Djb2.WrappingShiftAdd: the shift is arithmetic on integers, not on bit-vectors.
- Several clock readings within one rebuild or one request: a rebuild reads the clock once or twice a record, the model once; `Db.ProcessCommand` runs EXPIRE at one reading, though `Db.ExpireKeyVal` covers three.
- The layout of the HELP page, colour codes, `SILENT` and `send_info_to_user`: presentation.
- The bound of 8192 bytes on an answer: stored values come from requests of fewer than 512 bytes, or from lines of at most 8191.
- Failures of `malloc`, `realloc`, `fopen` and writing: assumed not to happen.
- The `prev` field of an entry and the `Page` and `KV` structs: nothing uses them.
- Replication, the connection table, sockets, configuration, the command-line clients and the benchmark: plumbing around the store.
