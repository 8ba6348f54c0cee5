# A verified model of the YCSB benchmark on SQLite over shared memory

The modelled program runs the YCSB workloads against SQLite on L4Re.  Client threads build record keys and draw
operations; a store carries them out: SQLite in the same process, SQLite behind a shared-memory channel, or an in-memory
hash table.  The Dafny files model that program's logic and prove what it keeps over whole runs.  `dafny verify
dfyconfig.toml` checks everything.

**Record keys over a benchmark run.** `Fnv` proves that FNV-1a over eight octets separates all numbers that agree on their
upper 32 bits, so hashed keys of record numbers below 2^32 are distinct.  `KeyNames` carries this through padding and
decimal printing.  `BenchmarkRun` is a state machine over all threads with a step for every atomic access to the key
counter, and with the load phase, the barrier and the transactions.  It proves that no key is inserted twice.  `Picks` says
exactly when every key that transactions pick has been loaded and when they can pick what they inserted, for any key
chooser given as the set of its answers; `LatestChooser` has the set for the chooser skewed towards the latest records.
`Workload` holds the counters and key functions as classes, and `WorkerOperations` shows that their methods perform the
steps of that machine.

**The message codec.** `Codec` defines the format as functions on values and proves both round trips, including that stale
bytes behind a message do not matter and that no prefix of a message is a message.  `Serializer` models the C++ classes:
64-bit addresses that wrap, a cursor, and a bound that is checked by unsigned subtraction.  Its methods are proved against
the functions of `Codec`, up to a whole message that is written and read back (`Serializer.Transfer`).

**The shared-memory channel.** `StoreBuffer` is memory behind a first-in first-out store buffer.  `ShmChannel` is the
client's call against the server's loop, one step for every byte loaded or stored, under total store order (sequential
consistency is the special case that drains at once).  An invariant over both program counters and both buffers gives
that the sides never share a window, that the server executes exactly the request made and that the client gets exactly
the reply of that execution.  `Linearizability` puts any number of such channels over one abstract database and proves
every run linearizable.  `Calls` writes the five operations out: the bytes of each request and reply, and that a client
gets what the database gives for any strings that fit.  `Progress` gives a rank that every step but spinning lowers, and
shows that such a step always exists. `ServerCrash` adds that the server threads share a process, which one exception
ends, and says exactly which calls still return. Requests and replies are the values of `Codec`, so the classes of
`Serializer` put the same bytes into the windows.

**Generators.** `Zipfian` (with `SkewedLatestGenerator`) and `Discrete` are the random generators over reals: the running
sum equals the sum from scratch, the third Zipfian branch stays within bounds, and the weighted choice partitions the unit
interval in proportion to the weights.

**SQLite statements.** `SqlText` has the generated texts and a parser that reads each back, so equal cache keys mean
equal statements; it counts the placeholders as SQLite would, skipping quoted names.  `PlainTexts` has the texts for
plain names.  `FieldOrder` is the sorting of the fields. `StatementCache` is the cache with its prepared statements, and
the five operations on it.  `StatementHistory` says which operations of a whole history succeed and what the database
has run.  `RemoteReads` says what a remote client makes of a reply.

**The in-memory store.** `CStrings` has C strings and their hashes, `StlHashtable` the hash table and `HashtableDb` the
store over nested tables, with the ownership of every value string in a ledger.
No string is freed twice or read after it was freed, because `Heap.Free` and `Heap.Content` demand a live address.

**CPUs.** `Cpus` enumerates the online CPUs and places the threads on them.

## What the code does differently from what one would expect

Each of these is a theorem about the code as it is, with the condition under which the expected property holds.

- The load leaves out `recordcount % threadcount` records, and records below `insertstart`.  For a key chooser that
  answers nothing below `least`, but can answer both `least` and the last number that passes the rejection loop, the picks
  that pass are numbers of loaded records exactly if none passes at all or `0 <= insertstart <= least` and the remainder is
  at most `insertstart` (`Picks.PicksAreLoaded`).  For the uniform chooser that is a start of 0 and an even share; for the
  latest chooser, which never answers 0, also a start of 1 with a remainder of at most 1
  (`LatestChooser.LatestPicksAreLoaded`).  Which ends the scrambled Zipfian chooser can answer depends on single hash
  values; the condition for `least` 0 suffices for it (`Picks.TransactionsUseLoadedRecords`).  For names the same holds
  except in one case of hashed mode, which is left open (`Picks.PicksNameLoadedRecords`).
- Nothing advances the counter that limits the picks.  Even so a run can pick a record that a transaction inserted
  (`Picks.InsertsPicked` has the condition for every configuration and every chooser).  For a start of at least 0, one
  thread or more, one record or more and a chooser that can answer the last record number, as the uniform and the latest
  can, that is exactly if transactions are performed and `insertstart < recordcount % threadcount`
  (`Picks.InsertsPickedOrdinarily`).
- The Zipfian branches for 0 and 1 ignore the base: the results lie in the `num` numbers from the base on exactly if the
  base is 0 and the generator was not made for two items and asked for more (`Zipfian.InRangeExactly`).
- A single-field read asks for `fieldfieldN`, which is no column of the table
  (`KeyNames.SingleFieldRequestMatchesNoColumn`); the remote client then reports an existing record as missing
  (`RemoteReads.SingleFieldRead`).
- A scanned row starts with blank pairs unless the field list is given and empty (`StatementCache.ScanRowIsReadRow`).
- Whatever fails at the server, a record miss included, makes the server throw; every call not yet executed can come to
  this (`Progress.CanFail`).  Its client then waits for ever (`Progress.FailedForever`).  As the exception ends the server
  process, the calls of the other clients return exactly if they have been answered by then: those executed but not
  answered hang too, and so do all later ones (`ServerCrash.ReturnsExactly`).
- One failed statement stays stepped: an operation succeeds exactly if its text has been prepared by then, its own step
  succeeds, and no earlier operation with the same text failed (`StatementHistory.RunHistory`).
- The in-memory store finds rows by table name and key run together.  Two tables whose names hold no NUL can share rows
  exactly if one name begins with the other (`HashtableDb.TablesAlias`, which also covers names with NULs).  Within one
  table two keys share a row exactly if they are the same C string or the table's name holds a NUL
  (`HashtableDb.KeyIndexSeparates`).
- An update that creates a row leaks one string for every repeated field name, and nothing else leaks a value string
  (`HashtableDb.NoLeaks`, `HashtableDb.Life`).
- A key is padded to `zeropadding` digits, but the difference is cut to an int: a padding so close to the least int that
  the difference wraps gives a name of some 2^31 zeros (`KeyNames.KeyNameIs`).
- Without `migrate-rr` every client and every server is on one CPU, even if they are to be dispersed
  (`Cpus.OneCpuWithoutMigration`).
- A failed insert keeps the fields it added before the conflict, and the row it may have created
  (`HashtableDb.LockStlDb.Insert`).  It changes nothing exactly if the row exists and the first field already is in
  conflict (`HashtableDb.InsertChangesNothing`).

## Model

| member | source | states |
|---|---|---|
| `Fnv.FNVHash64` | server/ycsbc-l4/core/utils.h:22-33 | the loop computes FNV-1a over the eight octets of the number, least significant first |
| `Fnv.RoundInjective` | server/ycsbc-l4/core/utils.h:27-31 | a round on one octet never merges two hash states |
| `Fnv.SameSuffixInjective` | server/ycsbc-l4/core/utils.h:22-33 | nor do any number of rounds on the same octets |
| `Fnv.OnlyTrivialCollision` | server/ycsbc-l4/core/utils.h:19-20 | the arithmetic core: a small combination of the powers of the prime vanishes modulo 2^64 only if all its coefficients do |
| `Fnv.FourOctetsInjective` | server/ycsbc-l4/core/utils.h:22-33 | from any hash state, different four-octet inputs give different hashes |
| `Fnv.FourOctetWindow` | server/ycsbc-l4/core/utils.h:22-33 | inputs that differ only within four consecutive octets never collide, whatever surrounds those |
| `Fnv.HashInjective` | server/ycsbc-l4/core/utils.h:22-35 | numbers that agree on their upper 32 bits, so all below 2^32, have equal hashes exactly if they are equal |
| `Fnv.HighHalvesInjective` | server/ycsbc-l4/core/utils.h:22-35 | so do numbers that agree on their lower 32 bits: all eight octets take part |
| `Fnv.XorBits` | server/ycsbc-l4/core/utils.h:28-30 | each bit of the exclusive or is set exactly if it is set in one of the two numbers only |
| `Fnv.HashOfZero` | server/ycsbc-l4/core/utils.h:19-35 | in figures, the hash of the first record of a default load, which settles basis, prime and number of rounds |
| `Fnv.HashOfOne` | server/ycsbc-l4/core/utils.h:19-35 | and that of the second, which settles that the lowest octet goes in first |
| `KeyNames.PaddedDecimal` | server/ycsbc-l4/core/core_workload.h:217-220 | decimal text behind any number of zeros denotes the number it was printed from |
| `KeyNames.KeyNameIs` | server/ycsbc-l4/core/core_workload.h:213-221 | a key name is "user" and digits that denote the number or its hash, as many as the padding says or the number needs; only a padding close to the least int wraps into a huge one |
| `KeyNames.DigitCount` | server/ycsbc-l4/core/core_workload.h:217 | a number has at most k digits exactly if it is below 10^k |
| `KeyNames.NoLeadingZero` | server/ycsbc-l4/core/core_workload.h:217 | no number but 0 starts with a zero |
| `KeyNames.KeyNameDetermines` | server/ycsbc-l4/core/core_workload.h:213-221 | two key names are equal exactly if the numbers are, or in hashed mode their hashes, for every padding |
| `KeyNames.KeyNameInjective` | server/ycsbc-l4/core/core_workload.h:213-221 | key names separate key numbers, in ordered mode always and in hashed mode where the upper 32 bits agree |
| `KeyNames.FieldNameInjective` | server/ycsbc-l4/core/core_workload.h:223-225 | field names separate field numbers |
| `KeyNames.FieldNameIs` | server/ycsbc-l4/core/core_workload.h:223-225 | a field name is "field" and the number in digits, without leading zeros |
| `KeyNames.SingleFieldRequestMatchesNoColumn` | server/ycsbc-l4/core/client.h:80 | the field name a single-field request asks for is no field name of the workload |
| `KeyNames.BuildValues` | server/ycsbc-l4/core/core_workload.cc:202-209 | one pair for every field in order, with pairwise distinct names |
| `Workload.CounterGenerator.Next` | server/ycsbc-l4/core/counter_generator.h:22 | one atomic step gives the counter's value and leaves it one higher, modulo 2^64 |
| `Workload.CoreWorkload.Init` | server/ycsbc-l4/core/core_workload.cc:122-140 | inserts draw from a counter at the insert start, and picks are limited by a different one set to the record count |
| `Workload.CoreWorkload.NextSequenceKey` | server/ycsbc-l4/core/core_workload.h:200-203 | the name of the number drawn, each call advancing the insert counter by one |
| `Workload.CoreWorkload.NextTransactionKey` | server/ycsbc-l4/core/core_workload.h:205-211 | the name of the first pick that does not exceed the last inserted number; every earlier pick exceeded it |
| `BenchmarkRun.UndrawnUpdate` | server/ycsbc-l4/ycsbc-l4.cc:52-58 | what one worker's step does to the draws still to come |
| `BenchmarkRun.RunInv` | server/ycsbc-l4/ycsbc-l4.cc:116-147 | over every interleaving each number drawn is issued once or held by one worker, the draws stay within the shares of both phases, and the load has issued exactly its share |
| `Picks.WholeRun` | server/ycsbc-l4/ycsbc-l4.cc:116-147 | a finished run has loaded the record count and performed the operation count, each less its remainder by the number of threads |
| `WorkerOperations.Start` | server/ycsbc-l4/core/core_workload.cc:122-140 | the counters of a new workload are those of a run's first state |
| `WorkerOperations.InsertKey` | server/ycsbc-l4/core/client.h:42-46 | drawing an insert's key is the machine's draw and the insert its issue, under the name of that number |
| `WorkerOperations.TransactionKey` | server/ycsbc-l4/core/core_workload.h:205-211 | every pick of the rejection loop is a pick of the machine, and the key is the name of the one it keeps |
| `BenchmarkRun.NoKeyTwice` | server/ycsbc-l4/core/core_workload.h:200-221 | no key is handed to Insert twice in a run: always in ordered mode, in hashed mode while the numbers drawn share their upper 32 bits |
| `BenchmarkRun.DefaultStartSeparates` | server/ycsbc-l4/core/core_workload.cc:100-122 | which they do in every run with insert start 0 |
| `Picks.UniformSpans` | server/ycsbc-l4/core/core_workload.cc:142-143 | the uniform chooser can answer 0, the last number that passes, and nothing outside |
| `LatestChooser.DrawsLargest` | server/ycsbc-l4/core/zipfian_generator.h:92-112 | some random number draws the largest offset, for any power that comes arbitrarily close to 1 |
| `LatestChooser.LatestSpans` | server/ycsbc-l4/core/core_workload.cc:155-156 | the latest chooser answers nothing below 1 and can answer both 1 and the last record number |
| `LatestChooser.AskLatest` | server/ycsbc-l4/core/skewed_latest_generator.h:23-39 | the generator itself, asked any number of times, gives exactly the answers that these results are about |
| `Picks.PicksAreLoaded` | server/ycsbc-l4/ycsbc-l4.cc:116-123 | for every chooser known by its least and last answer: every pick that passes the rejection loop is the number of a loaded record if and only if none passes or the load starts from 0 to the least answer and its remainder is at most its start |
| `Picks.UniformCovers` | server/ycsbc-l4/core/core_workload.cc:142-143 | for the uniform chooser that condition is a start of 0 and an even share |
| `Picks.LatestCovers` | server/ycsbc-l4/core/core_workload.cc:155-156 | for a chooser that starts at 1 it also allows a start of 1 with at most one record left out |
| `LatestChooser.LatestPicksAreLoaded` | server/ycsbc-l4/core/core_workload.cc:155-156 | so with the latest chooser and three records or more every pick was loaded exactly under that condition |
| `Picks.FewDistinct` | server/ycsbc-l4/ycsbc-l4.cc:116-123 | different numbers below a bound are no more than the bound |
| `Picks.PicksNameLoadedRecords` | server/ycsbc-l4/core/core_workload.h:200-221 | the same for names, unless in hashed mode a negative start meets a share that is not zero and counting does not settle it |
| `Picks.TransactionsUseLoadedRecords` | server/ycsbc-l4/core/core_workload.h:205-211 | under the covering condition every key used by a read, scan or update so far, in any run, was loaded |
| `Picks.InsertsPicked` | server/ycsbc-l4/core/core_workload.h:200-211 | for every chooser: some run uses a number that its transactions inserted if and only if some number in the order of draws falls into the transactions, leaves one operation to pick it, passes the limit and is an answer |
| `Picks.InsertsPickedOrdinarily` | server/ycsbc-l4/core/core_workload.h:200-211 | for an ordinary configuration and a chooser that can answer the last record number: if and only if transactions are performed and the remainder of the load exceeds the start |
| `MachineInts.LittleEndianRoundTrip` | server/lib/serializer/serializer.cc:19-27 | a number that fits comes back from its octets |
| `MachineInts.FromLittleEndianRoundTrip` | server/lib/serializer/serializer.cc:53-63 | octets come back from the number they denote |
| `MachineInts.OctetAt` | server/lib/serializer/serializer.cc:19-27 | octet number i is the digit of weight 256^i, so the least significant one comes first |
| `Codec.RoundTrip` | server/include/serializer.h:40-102 | every value of every nested type comes back whatever bytes follow it, consuming exactly its own bytes |
| `Codec.MessageRoundTrip` | server/include/serializer.h:40-102 | so does every sequence of values of any types |
| `Codec.DecodeEncode` | server/include/serializer.h:71-101 | whatever decodes is the encoding of what it decodes to, and has the type asked for |
| `Codec.MessageDecodeEncode` | server/include/serializer.h:71-101 | the same for a sequence of values |
| `Codec.MessageSelfDelimiting` | server/include/serializer.h:62-102 | a reader that has seen part of a message cannot take it for a whole one, and one that has seen the message reads exactly it |
| `Serializer.MemCpy` | server/lib/serializer/serializer.cc:47 | the bytes are at the address and no other byte of memory changed, even where addresses wrap |
| `Serializer.Appended` | server/lib/serializer/serializer.cc:45-49 | copying behind the used part extends the buffer's contents by exactly these bytes |
| `Serializer.AddressWraps` | server/lib/serializer/serializer.cc:39-49 | addresses go upwards, modulo 2^64 |
| `Serializer.EmittedThen` | server/include/serializer.h:40-54 | two insertions in a row fit exactly if both encodings do, and leave a prefix of both |
| `Serializer.Serializer.constructor` | server/lib/serializer/serializer.cc:16-17 | an empty buffer for every address and length, also where the end wraps |
| `Serializer.Serializer.Length` | server/include/serializer.h:59 | the number of bytes written |
| `Serializer.Serializer.AssertRemaining` | server/lib/serializer/serializer.cc:39-43 | the unsigned distance to the end is the length less what is used, so it passes exactly if the bytes fit |
| `Serializer.Serializer.Serialize` | server/lib/serializer/serializer.cc:45-49 | fails exactly if the bytes do not fit, then changes nothing, and otherwise touches only the bytes it appends |
| `Serializer.Serializer.PutString` | server/lib/serializer/serializer.cc:29-33 | appends the encoding of the string, or fails with a prefix of it written |
| `Serializer.Serializer.PutTwo` | server/include/serializer.h:47-54 | appends the encodings of both components, or fails with a prefix of them written |
| `Serializer.Serializer.PutEach` | server/include/serializer.h:42-43 | appends the encodings of all elements, or fails with a prefix of them written |
| `Serializer.Serializer.PutVector` | server/include/serializer.h:40-45 | appends the encoding of the vector, or fails with a prefix of it written |
| `Serializer.Serializer.Put` | server/include/serializer.h:31-54 | for every nested type: fails exactly if the encoding does not fit, what is written is then a prefix of it, and nothing outside the buffer's unused part changes |
| `Serializer.Deserializer.Take` | server/lib/serializer/serializer.cc:53-57 | reads the bytes at the cursor and moves it past them |
| `Serializer.Deserializer.GetString` | server/lib/serializer/serializer.cc:65-73 | as many bytes as the count in front says, the cursor ending behind them |
| `Serializer.Deserializer.GetTwo` | server/include/serializer.h:94-101 | the two components that decoding gives, the cursor ending where it ends |
| `Serializer.Deserializer.GetEach` | server/include/serializer.h:86-90 | the loop reads the elements that decoding gives, whatever lies behind them |
| `Serializer.Deserializer.GetVector` | server/include/serializer.h:80-92 | the elements that decoding a vector gives, the cursor ending where it ends |
| `Serializer.Deserializer.Get` | server/include/serializer.h:71-101 | for every nested type: the value that decoding gives, moving the cursor by exactly its length |
| `Serializer.Serializer.PutAll` | server/ycsbc-l4/db/sqlite_shm_db.cc:182-189 | a sequence of values fits exactly if its encoding does, and what is written is in any case a prefix of it |
| `Serializer.Deserializer.GetAll` | server/sqlite-shm-srv/shm.cc:186-189 | a sequence of values is read as decoding gives it, the cursor ending behind it |
| `Serializer.Transfer` | server/include/serializer.h:16-102 | a message written into memory and read back goes through exactly if it fits and comes out as it went in, whatever the memory held |
| `Serializer.BufferDecodes` | server/include/serializer.h:16-102 | what a serializer has written, a deserializer at the start of the buffer reads back, with any stale bytes behind it |
| `StoreBuffer.ViewPush` | server/ycsbc-l4/db/sqlite_shm_db.cc:67-76 | a thread sees its own newest store at once |
| `StoreBuffer.ViewDrain` | server/ycsbc-l4/db/sqlite_shm_db.cc:67-76 | draining the oldest store changes nothing for its owner |
| `Rpc.OpcodesDistinct` | server/sqlite-shm-srv/shm.cc:112-138 | the server's switch recovers each operation from its opcode, and no opcode reads as no request |
| `Calls.Letters` | server/ycsbc-l4/db/sqlite_shm_db.cc:65-67 | the flag of a request is the letter of its operation |
| `Calls.RequestWire` | server/ycsbc-l4/db/sqlite_shm_db.cc:176-277 | the bytes of each operation's request, with table, key, length, fields and values written out in their order |
| `Calls.ReplyWire` | server/sqlite-shm-srv/shm.cc:152-201 | the bytes of the reply: the pairs of a row, the rows of a scan, or nothing |
| `Calls.TableWire` | server/lib/serializer/serializer.cc:35-38 | a table of the schema is its name and its columns |
| `Calls.ReadRuns` | server/sqlite-shm-srv/shm.cc:152-173 | for any strings that fit 1048575 bytes a read can be called and executed with exactly these, and every list of pairs that the database may give comes back as it is |
| `Calls.ScanRuns` | server/sqlite-shm-srv/shm.cc:176-200 | the same for a scan with any length and every list of rows |
| `Calls.StoreRuns` | server/sqlite-shm-srv/shm.cc:203-236 | an insert or update is executed with exactly the pairs given, in their order, and comes back with nothing |
| `Calls.DeleteRuns` | server/sqlite-shm-srv/shm.cc:239-252 | and so is a delete with its table and key |
| `Calls.OnlyThese` | server/sqlite-shm-srv/shm.cc:112-129 | no step of either side calls, executes or returns anything of another shape |
| `Calls.OnlyWhatFits` | server/ycsbc-l4/db/sqlite_shm_db.cc:60-62 | a message is posted only if it is no longer than 1048575 bytes, and a serializer that throws had one that is |
| `ShmChannel.RequestDecodes` | server/sqlite-shm-srv/shm.cc:152-252 | in every reachable state the server stops reading exactly at the end of the request and has its arguments |
| `ShmChannel.ReplyDecodes` | server/ycsbc-l4/db/sqlite_shm_db.cc:191-223 | in every reachable state the client stops reading exactly at the end of the reply and has its values |
| `ShmChannel.ServerExecutes` | server/sqlite-shm-srv/shm.cc:112-129 | what is executed is the request of the call in progress, not executed before |
| `ShmChannel.ClientReturns` | server/ycsbc-l4/db/sqlite_shm_db.cc:65-79 | what is returned is the reply of the execution for that call |
| `ShmChannel.StepInv` | server/sqlite-shm-srv/shm.cc:90-148 | every step of either side or either store buffer keeps the invariant over both program counters |
| `ShmChannel.RunInv` | server/sqlite-shm-srv/shm.cc:90-148 | so it holds after every run from zeroed dataspaces |
| `ShmChannel.WindowsExclusive` | server/sqlite-shm-srv/shm.cc:90-148 | in no run do both sides use the same payload window at once, counting stores still on their way |
| `ShmChannel.AccessesInWindow` | server/ycsbc-l4/db/sqlite_shm_db.cc:60-62 | no byte is loaded or stored outside the windows |
| `ShmChannel.GoneForGood` | server/sqlite-shm-srv/shm.cc:130-135 | in every run, after the close request is answered the server stays gone and never touches either window again |
| `ShmChannel.StepIsDirect` | server/ycsbc-l4/db/sqlite_shm_db.cc:65-79 | every step is a step of calling the database directly: one call, one execution of that request, one return of its reply |
| `Linearizability.NotReturned` | server/ycsbc-l4/db/sqlite_shm_db.cc:65-79 | a call that is not in the order has not returned |
| `Linearizability.OrderPush` | server/sqlite-shm-srv/shm.cc:112-146 | executing a pending operation last keeps the order's account of all returns and of real time |
| `Linearizability.SequentialPush` | server/sqlite-shm-srv/shm.cc:112-146 | and its account of the database and of all outcomes |
| `Linearizability.RunInv` | server/sqlite-shm-srv/shm.cc:90-148 | every run of any number of channels over one database comes with such an order |
| `Linearizability.RunsLinearizable` | server/ycsbc-l4/db/sqlite_shm_db.cc:65-79 | so every run is linearizable: some order of the operations that respects real time gives the final database and every value returned |
| `Progress.StepProgresses` | server/sqlite-shm-srv/shm.cc:93-147 | every step but spinning lowers the rank of a call that succeeds at the server, or returns from it |
| `Progress.SomeStep` | server/sqlite-shm-srv/shm.cc:93-147 | some step but spinning is always possible while such a call is pending |
| `Progress.CallCanComplete` | server/ycsbc-l4/db/sqlite_shm_db.cc:65-79 | from every reachable point of a call a run of further steps ends with its return |
| `Progress.CanExecute` | server/sqlite-shm-srv/shm.cc:93-129 | every call not yet executed can come to its execution with any outcome that the database may give |
| `Progress.CanAnswer` | server/ycsbc-l4/db/sqlite_shm_db.cc:65-79 | every call that has been executed comes to the return of exactly its answer, with no other event on the way |
| `Progress.CallRuns` | server/ycsbc-l4/db/sqlite_shm_db.cc:65-79 | between calls every request that fits can be made, and gets any reply that the database may give and that fits |
| `Progress.FailureIsFinal` | server/sqlite-shm-srv/shm.cc:140-142 | once the server has thrown, no step of any kind brings the call back |
| `Progress.FailedForever` | server/sqlite-shm-srv/shm.cc:140-142 | so in no run does anything happen on the channel any more |
| `Progress.CanFail` | server/sqlite-shm-srv/shm.cc:140-142 | every call not yet executed can come to a result other than kOK or a reply too large, and then the server throws |
| `ServerCrash.CrashIsFinal` | server/sqlite-shm-srv/shm.cc:140-142 | from the end of the process on no operation of any client is executed and the database and all servers stay as they are |
| `ServerCrash.ClientFinishes` | server/ycsbc-l4/db/sqlite_shm_db.cc:65-79 | a call whose answer has been given returns without any further step of the server |
| `ServerCrash.UnansweredCallsHang` | server/ycsbc-l4/db/sqlite_shm_db.cc:69-73 | a client without an answer never gets a return after the end, nor for a call it makes later |
| `ServerCrash.ReturnsExactly` | server/ycsbc-l4/db/sqlite_shm_db.cc:65-79 | after the end of the process some continuation of the run returns a client's call if and only if the call has been answered |
| `ServerCrash.FailureReachable` | server/sqlite-shm-srv/shm.cc:140-142 | a pending call whose operation fails on the database as it is can bring the process down |
| `Zipfian.ZetaGrows` | server/ycsbc-l4/core/zipfian_generator.h:69-76 | the sum grows strictly, with every item by its weight |
| `Zipfian.CurveBounds` | server/ycsbc-l4/core/zipfian_generator.h:108-111 | past the guards of the first two branches the base of the power lies between the root and 1 |
| `Zipfian.CurveEnds` | server/ycsbc-l4/core/zipfian_generator.h:58-61 | the base of the power is the straight line from the root, where the third branch begins, to 1 |
| `Zipfian.OffsetBounds` | server/ycsbc-l4/core/zipfian_generator.h:111 | with three items or more the power scaled by `num` is below `num`, and at least 2 if `num` is no smaller than the number of items |
| `Zipfian.ThirdBranch` | server/ycsbc-l4/core/zipfian_generator.h:92-112 | so the third branch yields such an offset after any history of raises |
| `Zipfian.ThirdBranchReached` | server/ycsbc-l4/core/zipfian_generator.h:108-111 | with three or more items summed some random number reaches the third branch |
| `Zipfian.DrawnGrows` | server/ycsbc-l4/core/zipfian_generator.h:92-112 | with three items or more no larger random number draws a more popular item |
| `Zipfian.OverrunsExactly` | server/ycsbc-l4/core/zipfian_generator.h:92-112 | the third branch stays below `num` for all random numbers if and only if the generator has three items or was never raised above two |
| `Zipfian.DefaultPower` | server/ycsbc-l4/core/zipfian_generator.h:22-31 | raising to the power 100, which the default constant gives, is a power function as the other results ask for |
| `Zipfian.DefaultReachesOne` | server/ycsbc-l4/core/zipfian_generator.h:22-31 | and it comes arbitrarily close to 1 below 1 |
| `Zipfian.DefaultAlpha` | server/ycsbc-l4/core/zipfian_generator.h:22-31 | the exponent for the default constant 0.99 is 1 / (1 - 0.99) |
| `Zipfian.InRangeExactly` | server/ycsbc-l4/core/zipfian_generator.h:92-112 | for all random numbers the result is one of the `num` numbers from the base on if and only if the base is 0 and the generator has three items or more or was never raised above two |
| `Zipfian.ZipfianGenerator.constructor` | server/ycsbc-l4/core/zipfian_generator.h:25-36 | both sums equal the sums from scratch, for a range that may wrap |
| `Zipfian.ZipfianGenerator.Zeta` | server/ycsbc-l4/core/zipfian_generator.h:69-76 | adding the missing items to a previous sum gives the sum from scratch |
| `Zipfian.ZipfianGenerator.RaiseZeta` | server/ycsbc-l4/core/zipfian_generator.h:52-56 | raising gives the sum from scratch over the new number of items |
| `Zipfian.ZipfianGenerator.Next` | server/ycsbc-l4/core/zipfian_generator.h:92-112 | which branch gives what, the largest `num` seen is the number summed, and with base 0 and three items or more the result is below `num` |
| `Zipfian.SkewedLatestGenerator.constructor` | server/ycsbc-l4/core/skewed_latest_generator.h:23-26 | a generator over as many items as the counter has issued |
| `Zipfian.SkewedLatestGenerator.Next` | server/ycsbc-l4/core/skewed_latest_generator.h:36-39 | the newest record for small random numbers, the one before it for the next ones, and for all others an older one, by the third branch's offset behind the newest and never below 1 with three items or more |
| `Discrete.Partition` | server/ycsbc-l4/core/discrete_generator.h:53-58 | the values' stretches lie end to end from 0 to 1, each as long as the value's share of the weight |
| `Discrete.SelectionUnique` | server/ycsbc-l4/core/discrete_generator.h:53-58 | no number lies in two stretches |
| `Discrete.DiscreteGenerator.AddValue` | server/ycsbc-l4/core/discrete_generator.h:39-45 | appends the value and keeps the sum the sum of all weights |
| `Discrete.DiscreteGenerator.Next` | server/ycsbc-l4/core/discrete_generator.h:48-62 | draws the value in whose stretch the random number lies, and never gets past the loop |
| `SqlText.ParseText` | server/lib/sqlite-lib-db/sqlite_lib_db.cc:190-482 | every generated text can be read back into its operation, table and field list, each name up to its first NUL |
| `SqlText.SameText` | server/lib/sqlite-lib-db/sqlite_lib_db.cc:190-482 | two operations share a cache key exactly if they are the same operation on names that are the same to C |
| `PlainTexts.SelectIs` | server/lib/sqlite-lib-db/sqlite_lib_db.cc:190-192 | a read's text for a table without quotes |
| `PlainTexts.SelectFromIs` | server/lib/sqlite-lib-db/sqlite_lib_db.cc:277-280 | a scan's text |
| `PlainTexts.DeleteIs` | server/lib/sqlite-lib-db/sqlite_lib_db.cc:480-482 | a deletion's text |
| `PlainTexts.InsertIs` | server/lib/sqlite-lib-db/sqlite_lib_db.cc:424-435 | an insert's text: the names in quotes behind the key's column, in order, and as many question marks |
| `PlainTexts.UpdateIs` | server/lib/sqlite-lib-db/sqlite_lib_db.cc:360-372 | an update's text: the assignments in order, and the condition on the key |
| `SqlText.QuoteHoldsNone` | server/lib/sqlite-lib-db/sqlite_lib_db.cc:62-64 | a quoted name hides every question mark in it and closes its quotes |
| `SqlText.InsertPlaceholders` | server/lib/sqlite-lib-db/sqlite_lib_db.cc:424-435 | an insert has one placeholder for the key and one for each field, all in its value list |
| `SqlText.UpdatePlaceholder` | server/lib/sqlite-lib-db/sqlite_lib_db.cc:360-372 | the placeholder behind the name of field number i is parameter number i + 1 |
| `SqlText.UpdatePlaceholders` | server/lib/sqlite-lib-db/sqlite_lib_db.cc:360-372 | an update has one placeholder for each field and a last one for the key |
| `FieldOrder.SortedUnique` | server/lib/sqlite-lib-db/sqlite_lib_db.cc:419-421 | fields with distinct names have only one sorted arrangement |
| `FieldOrder.BelowMeans` | server/lib/sqlite-lib-db/sqlite_lib_db.cc:419-421 | the order is ascending: the first difference decides, and a string comes before those that go on where it ends |
| `FieldOrder.OrderIrrelevant` | server/lib/sqlite-lib-db/sqlite_lib_db.cc:419-421 | so every order of the same fields is sorted into the same list |
| `StatementCache.UpdateBinds` | server/lib/sqlite-lib-db/sqlite_lib_db.cc:389-394 | an update sets a field to a value exactly if the caller paired them, and binds the key last |
| `StatementCache.UpdateBindsAll` | server/lib/sqlite-lib-db/sqlite_lib_db.cc:360-394 | an update binds as many parameters as its text has placeholders |
| `StatementCache.InsertBinds` | server/lib/sqlite-lib-db/sqlite_lib_db.cc:452-456 | after sorting, an insert sets a column to a value exactly if the caller paired them, and binds the key first |
| `StatementCache.InsertBindsAll` | server/lib/sqlite-lib-db/sqlite_lib_db.cc:424-456 | an insert binds as many parameters as its text has placeholders |
| `StatementCache.InsertOrderIrrelevant` | server/lib/sqlite-lib-db/sqlite_lib_db.cc:413-456 | distinctly named fields in any order give the same text and the same bindings |
| `StatementCache.KeyPlaceholders` | server/lib/sqlite-lib-db/sqlite_lib_db.cc:480-500 | reads and deletes have exactly the one placeholder they bind, whatever the table is called |
| `StatementCache.ScanPlaceholders` | server/lib/sqlite-lib-db/sqlite_lib_db.cc:277-300 | scans have exactly the two placeholders they bind |
| `StatementCache.KeptPlaces` | server/lib/sqlite-lib-db/sqlite_lib_db.cc:237-243 | a read gives exactly the columns whose names are asked for, or all for no list or an empty one, each as often as it occurs and in their order |
| `StatementCache.KeptAll` | server/lib/sqlite-lib-db/sqlite_lib_db.cc:237-238 | without a list, and for an empty one, it gives the row as it is |
| `StatementCache.KeptMeans` | server/lib/sqlite-lib-db/sqlite_lib_db.cc:237-239 | for any other list a pair is given exactly if it is in the row and its name in the list |
| `StatementCache.ScanRowIs` | server/lib/sqlite-lib-db/sqlite_lib_db.cc:315-327 | a scanned row starts with a blank pair for each field named, or for each column if there is no list, and goes on as a read gives it |
| `StatementCache.ScanRowIsReadRow` | server/lib/sqlite-lib-db/sqlite_lib_db.cc:315-327 | a scanned row is the row a read gives exactly if the field list is given and empty |
| `StatementCache.CachedStatementIsOwn` | server/lib/sqlite-lib-db/sqlite_lib_db.cc:374-387 | a statement found under a key is the operation, table and fields that are looked for |
| `StatementCache.Prepared.Bind` | server/lib/sqlite-lib-db/sqlite_lib_db.cc:67-77 | binds one parameter, refused outside the parameters or while the statement is stepped |
| `StatementCache.Prepared.Execute` | server/lib/sqlite-lib-db/sqlite_lib_db.cc:389-407 | runs with exactly the parameters given and ends unbound and reset, or fails and stays stepped |
| `StatementCache.Ctx.Prepare` | server/lib/sqlite-lib-db/sqlite_lib_db.cc:374-387 | the cached statement, or a new one that is cached, or none; the text of the result is the one asked for |
| `StatementCache.Ctx.Run` | server/lib/sqlite-lib-db/sqlite_lib_db.cc:374-409 | the database runs this text with these parameters once or the operation throws; other cached statements stay as they were, and a failure leaves this one unusable |
| `StatementCache.Ctx.Update` | server/lib/sqlite-lib-db/sqlite_lib_db.cc:350-410 | runs the update of these fields, and a cache whose statements are all reset stays so through a success |
| `StatementCache.Ctx.Insert` | server/lib/sqlite-lib-db/sqlite_lib_db.cc:413-472 | runs the insert of the sorted fields and leaves the caller's vector sorted, under the same conditions |
| `StatementCache.Ctx.Delete` | server/lib/sqlite-lib-db/sqlite_lib_db.cc:474-513 | runs the deletion of the key, under the same conditions |
| `StatementCache.Ctx.Read` | server/lib/sqlite-lib-db/sqlite_lib_db.cc:178-263 | runs the selection of the key; no row gives kErrorNoData, a row the columns asked for in order |
| `StatementCache.Ctx.Scan` | server/lib/sqlite-lib-db/sqlite_lib_db.cc:265-348 | runs the selection from the key on, one result row for every row, each with its leading blanks |
| `StatementCache.Ctx.UpdateText` | server/lib/sqlite-lib-db/sqlite_lib_db.cc:360-372 | the loop builds the text that reads back as this update |
| `StatementCache.Ctx.InsertText` | server/lib/sqlite-lib-db/sqlite_lib_db.cc:424-435 | the loops build the text that reads back as this insert |
| `StatementHistory.CacheIs` | server/lib/sqlite-lib-db/sqlite_lib_db.cc:374-407 | the cache holds the texts prepared so far, and left stepped are those that an operation has failed at |
| `StatementHistory.SucceedsExactly` | server/lib/sqlite-lib-db/sqlite_lib_db.cc:374-409 | the cache lets an operation through exactly if its text has been prepared by then and none before it with that text failed |
| `StatementHistory.FailureSticks` | server/lib/sqlite-lib-db/sqlite_lib_db.cc:401-404 | after a failure no later operation with the same text succeeds |
| `StatementHistory.Perform` | server/lib/sqlite-lib-db/sqlite_lib_db.cc:178-513 | each of the five operations runs its own text with its own parameters or throws, and moves the cache accordingly |
| `StatementHistory.RunHistory` | server/lib/sqlite-lib-db/sqlite_lib_db.cc:178-513 | in every history of operations on one connection those succeed that the condition says, and the database has run exactly these, in order |
| `RemoteReads.KeptSome` | server/ycsbc-l4/db/sqlite_shm_db.cc:197-200 | a reply to a read has fields exactly if some column is wanted |
| `RemoteReads.SingleFieldRead` | server/ycsbc-l4/core/client.h:78-84 | a single-field read of an existing record gives no field, which the remote client reports as kErrorNoData |
| `CStrings.CStringOfConcat` | server/ycsbc-l4/db/hashtable_db.cc:24-25 | where the concatenation of two strings ends as a C string |
| `CStrings.HashedString.SdbmHash` | server/ycsbc-l4/lib/string.h:52-59 | the loop evaluates the octets, sign-extended, as a number to base 65599 modulo 2^64 |
| `CStrings.PolynomialFront` | server/ycsbc-l4/lib/string.h:52-59 | the first octet weighs most |
| `CStrings.HashesInFigures` | server/ycsbc-l4/lib/string.h:52-59 | the hash of "ab", and that of an octet with its sign |
| `CStrings.HashedString.SetValue` | server/ycsbc-l4/lib/string.h:46-50 | value and hash belong together afterwards |
| `CStrings.HashedString.Equals` | server/ycsbc-l4/lib/string.h:84-87 | two hashed strings are equal exactly if their values are, although hashes are compared first |
| `StlHashtable.WithoutEnumerates` | server/ycsbc-l4/lib/stl_hashtable.h:77-84 | erasing a key leaves an enumeration of the other keys in their order |
| `StlHashtable.WithoutKeepsOrder` | server/ycsbc-l4/lib/stl_hashtable.h:77-84 | each of the others at its place, or one further up behind the key |
| `StlHashtable.StretchIs` | server/ycsbc-l4/lib/stl_hashtable.h:88-100 | an iteration starts at the key, at the beginning without one, or at the end if it is missing, and yields the limit or what is left |
| `StlHashtable.Hashtable.Insert` | server/ycsbc-l4/lib/stl_hashtable.h:61-65 | adds the entry exactly if the key is new, and says so; the iteration order may change |
| `StlHashtable.Hashtable.Update` | server/ycsbc-l4/lib/stl_hashtable.h:68-74 | swaps the value of an existing key for the old one, and changes nothing for a missing key |
| `StlHashtable.Hashtable.Remove` | server/ycsbc-l4/lib/stl_hashtable.h:77-84 | removes and gives back the value, the other entries keeping their order |
| `StlHashtable.Hashtable.Entries` | server/ycsbc-l4/lib/stl_hashtable.h:88-100 | at most so many entries, neighbours in iteration order from the key on; none for a missing key |
| `HashtableDb.AllocatedConsistent` | server/ycsbc-l4/db/lock_stl_db.h:79-83 | a copy at an unused address is held by nothing and disturbs nothing |
| `HashtableDb.FreedConsistent` | server/ycsbc-l4/db/lock_stl_db.h:85-87 | freeing a string that no table holds leaves every held string live |
| `HashtableDb.StoredConsistent` | server/ycsbc-l4/db/hashtable_db.cc:86-94 | storing a copy in a field keeps every live string held in at most one place, and sets free exactly the string it replaces |
| `HashtableDb.DroppedConsistent` | server/ycsbc-l4/db/hashtable_db.cc:119-128 | freeing the strings of a row that is dropped frees no other row's |
| `HashtableDb.AllEntries` | server/ycsbc-l4/db/lock_stl_db.h:71-77 | the entries of a field table hold each of its strings once |
| `HashtableDb.LockStlDb.CopyString` | server/ycsbc-l4/db/lock_stl_db.h:79-83 | a new string at an address that was not live, with the contents up to the first NUL |
| `HashtableDb.LockStlDb.DeleteString` | server/ycsbc-l4/db/lock_stl_db.h:85-87 | frees one string that no row holds |
| `HashtableDb.LockStlDb.InsertField` | server/ycsbc-l4/db/hashtable_db.cc:110 | the row takes the string exactly if it has no such field |
| `HashtableDb.LockStlDb.UpdateField` | server/ycsbc-l4/db/hashtable_db.cc:88-93 | the row takes the string in exchange for the one it held, if it has such a field |
| `HashtableDb.LockStlDb.Update` | server/ycsbc-l4/db/hashtable_db.cc:74-97 | upserts the row; strings left unowned are as many as values that found their place taken in a row just created, and none in a row that existed |
| `HashtableDb.LockStlDb.Insert` | server/ycsbc-l4/db/hashtable_db.cc:99-117 | adds the fields before the first conflict and reports kErrorConflict exactly if there is one; nothing leaks |
| `HashtableDb.LockStlDb.Delete` | server/ycsbc-l4/db/hashtable_db.cc:119-128 | removes exactly this row and frees its strings, or reports kErrorNoData exactly if there is none |
| `HashtableDb.LockStlDb.Read` | server/ycsbc-l4/db/hashtable_db.cc:22-42 | the whole row, each field once, or the requested fields it has in the order of the request |
| `HashtableDb.LockStlDb.Scan` | server/ycsbc-l4/db/hashtable_db.cc:44-72 | from the key's place in the iteration order on, the smaller of `len` and the rows left, or all of them if `len` is negative; nothing if the key is missing; each row as a read answers |
| `HashtableDb.LockStlDb.DeleteFieldTable` | server/ycsbc-l4/db/lock_stl_db.h:71-77 | frees exactly the strings of this table, each once |
| `HashtableDb.LockStlDb.Destroy` | server/ycsbc-l4/db/lock_stl_db.h:26-32 | what stays live is exactly what no row held, so nothing does if no update leaked |
| `HashtableDb.Perform` | server/ycsbc-l4/db/hashtable_db.cc:74-128 | the store as a map from key index to row: every call makes of it what the pure model says, and leaks what the pure model says |
| `HashtableDb.NoLeaks` | server/ycsbc-l4/db/hashtable_db.cc:74-128 | a run of calls leaks nothing if and only if each update in it that finds no row repeats no field name |
| `HashtableDb.Life` | server/ycsbc-l4/db/lock_stl_db.h:21-91 | a store that is built, put through any calls and destroyed leaves exactly the strings leaked on the way |
| `HashtableDb.KeptLast` | server/ycsbc-l4/db/hashtable_db.cc:86-94 | of the values an update gives for a field of an existing row, the last one counts |
| `HashtableDb.KeptFirst` | server/ycsbc-l4/db/hashtable_db.cc:81-84 | when a row is created, and for an insert, the first one counts, and what the row has stays |
| `HashtableDb.KeptAsIs` | server/ycsbc-l4/db/hashtable_db.cc:86-94 | a field it does not name stays as it was |
| `HashtableDb.KeptNames` | server/ycsbc-l4/db/hashtable_db.cc:81-84 | the fields of a created row are those named |
| `HashtableDb.NoneLost` | server/ycsbc-l4/db/hashtable_db.cc:81-84 | no value is lost exactly if all names are distinct and new to the row |
| `HashtableDb.LostCount` | server/ycsbc-l4/db/hashtable_db.cc:81-84 | what is lost is what is given less the fields that the row gains |
| `HashtableDb.CreateIsUpsert` | server/ycsbc-l4/db/hashtable_db.cc:74-97 | creating a row and overwriting one come to the same where no value is lost |
| `HashtableDb.InsertIsUpsert` | server/ycsbc-l4/db/hashtable_db.cc:108-115 | an insert meets no conflict exactly if no value would be lost |
| `HashtableDb.RequestedMeans` | server/ycsbc-l4/db/hashtable_db.cc:35-39 | a pair is in the answer to a request exactly if the field was requested and the row holds that value |
| `HashtableDb.RequestedPlaces` | server/ycsbc-l4/db/hashtable_db.cc:35-39 | the answer follows the order of the request, with one pair for every mention of a field that the row has |
| `HashtableDb.UpdateReadsBack` | server/ycsbc-l4/db/hashtable_db.cc:22-97 | whatever a row held, distinctly named fields come back from it as an update put them in, each value up to its first NUL |
| `HashtableDb.UpdateThenRead` | server/ycsbc-l4/db/hashtable_db.cc:22-97 | the same for an update and a read on the store itself |
| `HashtableDb.KeyIndexSeparates` | server/ycsbc-l4/db/hashtable_db.cc:24 | within one table two keys mean the same row exactly if they are the same C string or the table's name holds a NUL |
| `HashtableDb.TablesAlias` | server/ycsbc-l4/db/hashtable_db.cc:24 | two tables can share rows exactly if, as far as C sees them, one name begins with the other and the shorter one holds no NUL, or both are the same |
| `HashtableDb.InsertChangesNothing` | server/ycsbc-l4/db/hashtable_db.cc:99-117 | an insert leaves the store as it was if and only if the row exists and the first field, if any, is in conflict |
| `Cpus.OnlineCpus` | server/include/utils.h:43-66 | the list is strictly ascending and holds exactly the CPUs whose bit is set in the maps of 64 that start below the maximum |
| `Cpus.BitIs` | server/include/utils.h:60-63 | bit 0 of a map is its lowest, so it stands for the lowest of its 64 CPUs |
| `Cpus.OneCpuWithoutMigration` | server/ycsbc-l4/ycsbc-l4.cc:91-101 | the boot CPU is left out exactly if asked for and there are others; without migration every thread is on one CPU, dispersed or not |
| `Cpus.ClientThenServer` | server/ycsbc-l4/ycsbc-l4.cc:105-114 | the first client is on the first CPU; dispersed, its server is on the next and the next client behind that, otherwise server and client share |
| `Cpus.ServerApart` | server/ycsbc-l4/ycsbc-l4.cc:106-114 | a client's server is on another CPU exactly if placement is dispersed and there are at least two |
| `Cpus.UsesAre` | server/ycsbc-l4/ycsbc-l4.cc:106-123 | how often each CPU is used by any number of threads |
| `Cpus.LoadIsEven` | server/ycsbc-l4/ycsbc-l4.cc:106-123 | two CPUs' uses differ by one at most when dispersed, by one pair at most when not |

## Left out

- The L4 kernel interface: capabilities, attaching and detaching dataspaces, IPC gates, migration, the schema page and
  the spawning of servers.  Dataspaces start zeroed.  Client and server are one pair of threads per channel.
- The IPC backend: its synchronous calls are the easy case of the same refinement.
- SQLite's engine.  For linearizability the database is any function of operation and arguments that is applied
  atomically; for the statement cache the rows a statement yields, and whether it is prepared and stepped successfully,
  are parameters.  Each channel's client status codes are modelled only for reads (`RemoteReads`).
- The protocol's two loops are not written as methods: they run concurrently, so each load, store and branch is a step of
  `ShmChannel` instead.  The operations' bodies are steps of that machine through the types of `Rpc`.
- Serializer.Deserializer.Get: the caller vouches for a whole value at the cursor, as the C++ class says it does; reading
  malformed bytes is not modelled.
- The generators' random numbers, the uniform and scrambled generators and the values' letters are arbitrary inputs in
  range.  Doubles are reals, so rounding is not modelled; powers and the one root needed are parameters known by what they
  satisfy.
- Zipfian.ZipfianGenerator.constructor: the assertion on the number of items is a precondition, and the Zipfian constant
  lies below 1.
- Picks.PicksNameLoadedRecords: in hashed mode with a negative start and a share that leaves out nothing to count with,
  whether a number that was not loaded has the name of one that was depends on single hash values; the result on the
  numbers themselves, `Picks.PicksAreLoaded`, has no such exception.
- BenchmarkRun.NoKeyTwice: likewise in hashed mode where the numbers drawn do not share their upper 32 bits.
- Workload.CoreWorkload.Init: only the wiring of the counters, not the reading of properties.
- Workload.CoreWorkload.NextTransactionKey: the rejection loop can go on for ever, so the picks are a finite list and no
  key comes out when all of them are rejected.
- FieldOrder.OrderIrrelevant: with repeated field names the result of the sort is not determined, and a fixed sorted
  arrangement stands for it.
- StatementCache.Ctx.Run: the five operations repeat this code in the source; here they share it.  A result text that is
  NULL, and the errors of clearing and resetting, are not modelled.
- HashtableDb.LockStlDb.Update: key strings copied into the hash tables are not tracked.  The lock is not modelled: every
  operation is one step.
- StlHashtable.Hashtable.Entries: the largest size_t, the default limit, is modelled as no limit; hash buckets are
  modelled only as an arbitrary iteration order.
- Cpus.OnlineCpus: map offsets and thread indices do not overflow.
- Timers, property files, the command line, the factory and printing.
