# AttoKV in Dafny

A model of AttoKV, a key-value server over TCP, and proofs that it behaves like a plain map: from the
bytes of its string arena, through the hash map, the framing of messages and the execution of commands,
to the poll loop that serves many clients; and of the benchmark that drives it, with its RESP2 codec.

The parts that change state in the C++ are Dafny classes and methods with loops. Next to them stand
values: `ArenaImage` and `MapImage` say what an arena and a table look like at one moment and what each
operation does to that picture, `ProbeTable` is the probing table without bytes, `TableSteps` is `get` and
`set` on any table, `Framing`, `Tokenizer`, `Executor.Execute` and `Resp` are the meaning of byte streams. Each method is proved to move from picture
to picture, or to compute that meaning, and the lemmas are about the pictures and meanings. `Requests`, `Rounds`,
`History` and the last parts of `Resp`, `MapRuns` and `Workload` say what these meanings come to, from the words
of a request, the events of a round, the bytes of a reply, the calls of a run or the operations of a workload.

| file | what it models |
|---|---|
| ArenaImage, StringArena, Compaction | `StringArena`: storing, overwriting, removing, viewing, compaction |
| ProbeTable, MapImage, Rebuild, TableSteps, FastMap, MapRuns, EmptyKey | `FastMap`: probing, tombstones, growth, arena rebuild, whole runs, empty keys |
| Framing, Sockets, Message, BlockingMessage | frames, a socket under an arbitrary schedule, readers and writers |
| Tokenizer, Executor, Requests | splitting a request into words, the commands, and what each is answered |
| Connection, Server, Rounds, History | one client, the poll loop over all of them, what a round does and what the log says |
| Decimal, Resp, RedisReader, Workload | the benchmark's RESP2 codec and its workloads |
| Wrappers | `Option` |

What the environment decides is arbitrary. The hash is any function of the key. A socket has a stream the
peer will send and two schedules that say how much each `recv` or `send` moves, and when it is interrupted,
would block, fails or is refused; a schedule that has run out would block. Poll reports any subset of the
requested events together with errors. Random draws and the interleaving of the benchmark's workers are
arbitrary. A C++ `char` is a Dafny `char`: text is only compared, and where the code computes with the value
of a character, in the four bytes of a header, its low eight bits count (`Framing.ByteOf`).

`Sockets.Moves` counts the calls of a schedule that move bytes, each at least one. What a reader or writer
promises is stated with it: results depend on the bytes alone, and when something is not read or sent, the
schedule broke, would block, or had fewer moves than there were bytes.

The server keeps a ghost record of every call of its handler, with what was to be seen of the client before and
after it. Its log of executed requests, who stays, and what a round does are all read off these records.

## Where the code falls short of its intent

The code is modelled as it is; where a property fails, the model says for which inputs.

- **Overwriting by a shorter value.** server/src/string_arena.cpp:54 computes `string.size() - ref.size`
  where the bytes to clear are `ref.size - string.size()`. In 64 bits the difference wraps for every strictly
  shorter string, and the clear runs past the block. `TailRule` keeps both readings: `AsWritten` is the code,
  `Intended` the evident meaning. `OverwriteSafety` shows that the code is memory-safe exactly when the new
  string is not shorter; `FastMap.Set` returns `Overrun` exactly when a stored value is replaced by a shorter
  one under `AsWritten`; a call of the server's handler is a crash exactly when the request it read does that.
  All other results hold under both rules.
- **Small tables.** A table of one to three slots fills before the load test ever triggers growth, and `set`
  then dereferences a null entry (server/src/map.cpp:100-101). `FastMap.Set` returns `NullEntry` exactly when
  the key is absent and the table is full; `AllRunsSurvive` shows that every run survives exactly when the
  table starts with at least four slots and the tail is cleared as intended. The server uses eight.
- **The empty key.** An entry with an empty key is indistinguishable from an empty slot. `FastMap.Set` takes any
  key; `EmptyKeySet` gives the whole effect of an empty one. It is never found again, the others are found
  exactly when the slot it takes does not lie on their way (`EmptyKeyGets`), its value is what the next key in that
  slot overwrites, which as written overruns for a shorter one (`LeftoverValue`), and the table grows with the count
  of such calls while it stores nothing (`Phantoms`). The server's tokenizer never yields an empty key.
- **Capacity zero.** The constructor accepts it; every lookup would then compute `hash % 0`. `FastMap.Valid` and
  `Readable` hold for positive capacities only.
- **Uncounted bytes.** Bytes of a replaced longer value, and the tail behind a shorter one, are never counted
  as dead (server/src/map.cpp:112-117). The ghost counter `abandoned` makes the balance exact:
  live + dead + abandoned bytes = bytes handed out.
- **Replies that do not fit.** A word that is not a command is quoted in the reply; if it leaves no room for
  the eighteen characters around it, the reply is too long and the connection is dropped (`ReplyFits`,
  `LongWordUnanswered`).
- **Compaction.** The comment on `compact_into` asks for a destination of at least `used_size()` bytes, the
  assertion for exactly that many; the model follows the assertion. Offsets are 32-bit, and exact exactly when
  they fit (`CompactedReads`, `OffsetWraps`).

## Model

| member | source | states |
|---|---|---|
| `ArenaImage.StoredKeeps` | server/src/string_arena.cpp:23-42 | a stored string reads back; every reference handed out before stays valid, keeps its string and does not touch the new bytes; bytes handed out grow by exactly the string's length |
| `ArenaImage.OverwriteSafety` | server/src/string_arena.cpp:44-59 | in-place overwrite stays inside its block exactly when the string is not shorter, or the tail is cleared as intended |
| `ArenaImage.OverwrittenKeeps` | server/src/string_arena.cpp:44-59 | when it does, the new string reads back with a cleared tail behind it, no disjoint string changes, and no total changes |
| `ArenaImage.RemovedKeeps` | server/src/string_arena.cpp:61-76 | a removed string is cleared and counted as dead, in its block and in total; strings disjoint from it keep their bytes |
| `ArenaImage.OutsideArena` | server/src/string_arena.cpp:44-76 | a reference whose range was not handed out reads as empty, is not removed, and overwriting it changes nothing |
| `ArenaImage.FragmentationBound` | server/src/string_arena.cpp:26-28 | in every arena the allocated capacity is at most twice the bytes handed out plus one block |
| `ArenaImage.BlockIndexFits` | server/src/string_arena.cpp:38-41 | the 32-bit block index of a reference is exact while the arena stays below 2^32 blocks' worth of memory |
| `StringArenas.StringArena.Store` | server/src/string_arena.cpp:23-42 | bumps the string into the last block, opening a new one only when it does not fit |
| `StringArenas.StringArena.Overwrite` | server/src/string_arena.cpp:44-59 | rewrites in place and clears the tail, or runs past the block; null for references outside the arena |
| `StringArenas.StringArena.Remove` | server/src/string_arena.cpp:61-76 | clears the bytes and counts them per block and in total; false outside the arena |
| `StringArenas.StringArena.View` | server/src/string_arena.cpp:112-121 | the bytes of a reference, empty for one outside the arena |
| `StringArenas.StringArena.ShouldReallocate` | server/src/string_arena.cpp:78-83 | true exactly when at least half of the allocated capacity is dead |
| `StringArenas.StringArena.UsedSize` | server/src/string_arena.cpp:85-91 | the bytes handed out over all blocks |
| `StringArenas.StringArena.CompactInto` | server/src/string_arena.cpp:93-110 | the destination is all blocks' used bytes in order, with each block's start in the table |
| `Compaction.CompactedReads` | server/src/string_arena.cpp:18-21 | every string is found at its block's start plus its offset, and `offset_of` reports that position exactly when it fits in 32 bits |
| `Compaction.OffsetWraps` | server/src/string_arena.cpp:18-21 | behind 65,536 full blocks of 64 KiB, a string at position 2^32 is reported at offset 0 |
| `Compaction.CompactedDisjoint` | server/src/string_arena.cpp:93-110 | disjoint strings stay disjoint after compaction |
| `ProbeTable.ScanMissed` | server/src/map.cpp:43-51 | a scan that reaches a free slot, or passes every slot, without meeting the key proves it absent |
| `ProbeTable.FullScan` | server/src/map.cpp:43-67 | a full cyclic scan visits every slot |
| `ProbeTable.VacancyExists` | server/src/map.cpp:53-72 | the search for a place fails exactly when every slot is live, even if all vacant slots are tombstones |
| `ProbeTable.Insert` | server/src/map.cpp:100-110 | putting an absent key into a vacant reachable slot keeps all probe chains and adds that key to the plain map |
| `ProbeTable.Delete` | server/src/map.cpp:120-128 | leaving a tombstone keeps all other probe chains and removes that key from the plain map |
| `ProbeTable.SearchAnswers` | server/src/map.cpp:37-74 | on a table that stores a plain map, the search finds the slot of a stored key, the first vacant slot on the way from the key's home, or the first free slot, as its mode asks |
| `FastMaps.GetEntry` | server/src/map.cpp:37-74 | on any readable table, the three lookups are the search that `SearchAnswers` is about |
| `MapImage.InsertSound` | server/src/map.cpp:99-118 | a new key keeps probe chains, ownership of bytes, load and the byte balance |
| `MapImage.ReplaceSound` | server/src/map.cpp:111-117 | a longer value keeps them too, and abandons the bytes of the old one |
| `MapImage.OverwriteSound` | server/src/map.cpp:111-117 | so does a value written over the old one, abandoning the tail |
| `MapImage.DeleteCore` | server/src/map.cpp:120-128 | so does a removal, which makes exactly the pair's bytes dead |
| `Rebuild.CopyDone` | server/src/map.cpp:130-140 | the rebuilt arena holds the same map, no dead bytes, live bytes only, in at most twice their size plus one block |
| `Rebuild.RehashDone` | server/src/map.cpp:76-90 | the rehashed table holds the same map, no tombstones, and the same bytes |
| `TableSteps.RefillSound` | server/src/map.cpp:76-90 | the table into which all entries are put again is the same map, without tombstones |
| `TableSteps.SetSound` | server/src/map.cpp:99-118 | on a sound table, setting a non-empty key updates the plain map; the plain map alone decides when it meets a null entry or an overrun, when the table grows, and how many bytes are taken |
| `FastMaps.Resize` | server/src/map.cpp:76-90 | for any readable table, every live entry finds a free slot in one of twice the size, and the result is the refilled table; it stores the same map |
| `FastMaps.FastMap.constructor` | server/include/attokv_server/map.h:48-51 | an empty table of any capacity with one empty arena block; an empty map when the capacity is positive |
| `FastMaps.FastMap.Get` | server/src/map.cpp:92-97 | the plain map's answer; on any readable table, that of the probing table |
| `FastMaps.FastMap.Set` | server/src/map.cpp:99-118 | any key, on any readable table: the step of the table; a non-empty key on a table that stores a map: updates the plain map, and exactly when it meets a null entry or an overrun, grows, and takes how many bytes |
| `FastMaps.FastMap.Remove` | server/src/map.cpp:120-143 | removes from the plain map; the arena is rebuilt exactly when half of it is dead |
| `FastMaps.FastMap.Clear` | server/src/map.cpp:145-149 | whatever the table stored, the empty map, with a fresh arena and the same capacity |
| `MapRuns.Replay` | server/src/map.cpp:92-149 | any sequence of calls on a fresh map, for any hash and capacity, gives the plain map's answers up to the first call that faults, which is known from the plain map alone |
| `MapRuns.GetAnswer` | server/src/map.cpp:92-97 | in any run, a get answers v exactly when some earlier call stored v under the key and none in between stored, removed or cleared it |
| `MapRuns.RemoveAnswer` | server/src/map.cpp:120-143 | in any run, a remove answers whether a value was under the key in that sense |
| `MapRuns.AllRunsSurvive` | server/src/map.cpp:99-118 | no run faults exactly when the table starts with four slots or more and the tail is cleared as intended |
| `MapRuns.SmallTableFaults` | server/src/map.cpp:100-101 | one insertion more than a table of one to three slots holds meets the null entry |
| `MapRuns.ShorterValueFaults` | server/src/string_arena.cpp:53-57 | as written, `set k ab` followed by `set k a` overruns |
| `EmptyKey.EmptyKeyNeverFound` | server/include/attokv_server/map.h:27-29 | no reachable map stores an empty key |
| `EmptyKey.EmptyKeySet` | server/src/map.cpp:99-118 | the whole effect of storing an empty key: a null entry exactly when the table is full; otherwise, after growing like for any new key, the first vacant slot on its way becomes free, keeps the value, and the size is one more than the number of keys |
| `EmptyKey.EmptyKeyGets` | server/src/map.cpp:92-118 | after it, the empty key is not found, and every other key is found with its value exactly when the slot taken does not lie between its home and its place |
| `EmptyKey.EmptyKeyHarmless` | server/src/map.cpp:92-118 | all other keys are found exactly when none is hidden like that, and none is when the table has just grown or the slot was free |
| `EmptyKey.EmptyKeyHidesAnother` | server/src/map.cpp:99-110 | a table where the slot it takes hides another key |
| `EmptyKey.LeftoverValue` | server/src/map.cpp:111-117 | a new key that comes to the slot overwrites the value left there, and as written overruns exactly when its value is shorter |
| `EmptyKey.LeftoverOverruns` | server/src/map.cpp:99-118 | two calls on a fresh table that do so, for any key that shares its home with the empty one |
| `EmptyKey.Phantoms` | server/src/map.cpp:99-118 | after n such calls on a fresh table the size is n and more than 4(n-1)/3 slots are allocated, while no key is found |
| `Framing.HeaderRoundTrip` | lib/src/message.cpp:209-211 | the big-endian size reads back |
| `Framing.TooLargeIffFirstByte` | lib/src/message.cpp:129-139 | a size is over the limit exactly when the first header byte is not zero |
| `Framing.HeadersOrdered` | lib/src/message.cpp:209-211 | headers are ordered as the sizes they announce, by the first byte in which they differ |
| `Framing.ParseKinds` | lib/src/message.cpp:109-139 | from its length and header alone, whether a stream starts with a message, is closed, ends early or announces too much |
| `Framing.ParseFrames` | lib/src/message.cpp:192-215 | a stream of frames parses to its messages and then to whatever follows |
| `Framing.FramesPrefix` | lib/src/message.cpp:192-215 | a stream of frames determines its messages: one list's stream starts another's only if it is a prefix of it |
| `Framing.ClosedIffWhole` | lib/src/message.cpp:109-116 | a stream ends cleanly exactly when it is a sequence of whole frames |
| `Messages.MessageReader.ReadFrom` | lib/src/message.cpp:98-179 | under every schedule the outcome is the parse of the bytes pending and to come; it is incomplete only where the schedule would block and fails only where it breaks, with no bytes lost, and every move on the way has brought bytes |
| `Messages.Drain` | lib/src/message.cpp:98-186 | under every schedule the messages read, and how the stream ends, are its frame-by-frame parse; it stays incomplete only if the schedule has no more moves than the stream has bytes |
| `Messages.MessageWriter.Queue` | lib/src/message.cpp:192-215 | refuses a second message and one over the limit; otherwise the whole frame remains to be sent |
| `Messages.MessageWriter.WriteTo` | lib/src/message.cpp:217-273 | under every schedule, what is sent followed by what remains never changes; it is blocked only where the schedule would block, fails only where it breaks, and every move on the way has sent bytes |
| `BlockingMessages.ReadMessage` | lib/src/message.cpp:283-314 | the blocking read has the same outcome, that of the parse; it fails otherwise only where the schedule breaks or blocks, or has fewer moves than the frame has bytes |
| `BlockingMessages.WriteMessage` | lib/src/message.cpp:316-334 | sends the frame; or a prefix of it and fails, only where the schedule breaks or blocks or has fewer moves than the frame has bytes; refuses a message over the limit |
| `BlockingMessages.ParseFramesPrefix` | lib/src/message.cpp:98-179 | whatever part of a stream of frames arrives parses to a prefix of the messages, never to an oversize error |
| `BlockingMessages.Post` | lib/src/message.cpp:192-273 | messages queued and sent one after the other, all of them if the schedule does not break and has as many moves as they have bytes |
| `BlockingMessages.Exchange` | lib/src/message.cpp:98-281 | any messages under any two schedules: what is received is a prefix of what was queued; and it is all of it, up to the clean end, if neither schedule breaks and they have as many moves as there are bytes, and one more to see the end |
| `Tokenizer.NextToken` | server/src/executor.cpp:49-61 | the next word of the request and the rest of its words |
| `Tokenizer.WhitespaceCodes` | server/src/executor.cpp:35-47 | white space is character 32 and characters 9 to 13 |
| `Tokenizer.TokensSpaced` | server/src/executor.cpp:35-61 | words separated by any white space are recovered exactly |
| `Tokenizer.TokensFit` | server/src/executor.cpp:49-61 | the words and one character between each two fit in the request |
| `Executor.ParseCommand` | server/src/executor.cpp:70-108 | the request's words understood as a command with the right number of arguments, or the error text |
| `Executor.RunCommand` | server/src/executor.cpp:110-120 | on the real map, the reply and contents are those of the plain map; undefined exactly when a value is shortened as written |
| `Executor.ExecuteBounded` | server/src/command.cpp:21-24 | over all runs stored pairs are non-empty and leave five bytes of a message |
| `Executor.ReplyFits` | lib/src/message.cpp:201-207 | a reply fits in a message except to an unknown word that leaves no room for the quotation |
| `Executor.LongWordUnanswered` | lib/src/message.cpp:201-207 | the longest word that fits in a request is one |
| `Executor.OnlyExitStops` | server/src/command.cpp:5-7 | only `exit` closes a connection, and it has no output and no effect |
| `Requests.GetReply` | server/src/command.cpp:13-19 | `get k` is answered the value of k, or NULL, and changes nothing |
| `Requests.SetReply` | server/src/command.cpp:21-24 | `set k v` is answered OK, stores v under k and changes no other key |
| `Requests.DelReply` | server/src/command.cpp:26-32 | `del k` is answered OK exactly when k was stored, otherwise NULL; it removes k and changes no other key |
| `Requests.FlushReply` | server/src/command.cpp:34-37 | `flush` is answered OK and leaves nothing |
| `Requests.PingReply` | server/src/command.cpp:9-11 | `ping` is answered pong and changes nothing |
| `Requests.ErrorReply` | server/src/executor.cpp:70-118 | a request is an error exactly when it is none of the six commands with its number of words; it is answered the text that says why, and changes nothing |
| `Requests.SetThenGet` | server/src/command.cpp:13-24 | however both requests are spaced, what was set is what is got |
| `Requests.StoredIffLastSet` | server/src/command.cpp:13-37 | after any requests, a key holds v exactly when the last request to set, delete or flush it set it to v |
| `Connections.ClientConnection.Receive` | server/src/server.cpp:156-178 | one attempt at a message, by the parse of the stream and the schedule; a complete request is executed and its reply queued; the client stays exactly when the message is incomplete or has a reply, and the process is lost exactly when the request shortens a value |
| `Connections.ClientConnection.Transmit` | server/src/server.cpp:180-189 | one attempt at the pending reply: bytes only move from what is left to what is sent, and the client stays unless the schedule breaks |
| `Connections.ClientConnection.Handle` | server/src/server.cpp:150-195 | a call reads and writes exactly what poll reported, answers a request that has a reply, and ends in keep, drop or crash exactly as its events, read and write decide; an error drops the client untouched, a hang-up after the call |
| `Connections.NoReplyIffSilent` | server/src/server.cpp:166-176 | a request has no reply exactly when its result stops with no output or is too long for a message, whatever is stored |
| `Connections.RequestAnswered` | server/src/server.cpp:156-178 | a call that reads answers a whole request in the stream when the schedule is smooth and long enough, and drops a client exactly when the result of its request is silent |
| `Connections.ReplySent` | server/src/server.cpp:180-189 | a call that writes sends all of the pending reply when the schedule is smooth and long enough, and keeps the client |
| `Connections.StreamEndDrops` | server/src/server.cpp:156-164 | a call that reads drops a client whose stream has ended or does not go on as frames |
| `Connections.ScheduleDecides` | server/src/server.cpp:150-195 | where the schedule breaks the client is dropped without an answer; where it would block it is kept with all bytes |
| `Servers.Server.HandleEvents` | server/src/server.cpp:91-98 | the handler is called once for each client with a reported event and for no other, last client first; those stay, in order and as their calls left them, whose call ended in keep or who had none; a crash ends the loop at its call |
| `Servers.Server.AcceptClients` | server/src/server.cpp:109-148 | exactly the configured connections join, at the end, in order, with nothing read or sent |
| `Servers.Server.Run` | server/src/server.cpp:65-107 | every run of rounds keeps the server's invariant, and each round polls every client for what it waits for, serves the events by calls of the handler, and accepts; the process is lost only in a call that read the next request of its client, which shortens a value of the log's state |
| `Rounds.TurnOf` | server/src/server.cpp:73-98 | in every round, a client has a turn exactly when poll reports an error, or output while a reply is pending, or input otherwise, and the turn is for what was reported |
| `Rounds.RoundAnswers` | server/src/server.cpp:65-107 | in every round, a client polled for reading with a whole request in its stream has it answered, and is there afterwards with the reply pending, when its schedule is smooth and long enough; if the result is silent it is gone |
| `Rounds.RoundSends` | server/src/server.cpp:65-107 | in every round, a client polled for writing has its pending reply sent completely, and is there afterwards with nothing pending, when its schedule is smooth and long enough |
| `Rounds.RoundDrops` | server/src/server.cpp:91-98 | in every round, an error or a hang-up takes the client out; with an error nothing is read or sent |
| `Rounds.RoundIdle` | server/src/server.cpp:92-93 | in every round, a client for which nothing it waits for is reported keeps its seat as it is |
| `Rounds.RoundJoins` | server/src/server.cpp:109-148 | after every round, each configured connection is there, with nothing read or sent, and nobody else is but those who were there before |
| `Servers.Server.SentInOrder` | server/src/server.cpp:150-195 | for every client ever accepted, what was sent parses to a prefix of the replies to its own requests in order, with at most one outstanding; the log is what the recorded calls completed, and the store is the log replayed |
| `Histories.GetAnswered` | server/src/server.cpp:166-171 | for every request `get k` in the server's log: the reply is the value of the last `set k` before it with no `del k` or `flush` in between, from whichever clients, and NULL if there is none |
| `Histories.DelAnswered` | server/src/server.cpp:166-171 | for every request `del k` in the log: the reply is OK exactly when k held a value by then |
| `Histories.OthersAnswered` | server/src/server.cpp:166-171 | the replies in the log to ping, flush, set and every kind of error |
| `Histories.CallReplies` | server/src/server.cpp:166-171 | the reply of every recorded call of the handler is what the plain map gives after the requests of all calls before it |
| `Servers.LogGrows` | server/src/server.cpp:166-171 | appending an executed request keeps every logged reply equal to the plain map's at that point, keeps the log free of requests that shorten a value as written, and reaches only its own client's transcript |
| `Decimal.ParseFormat` | benchmark/src/redis_backend.cpp:86-93 | a formatted number is read back exactly when it fits in 64 bits |
| `Decimal.ParseNegative` | benchmark/src/redis_backend.cpp:86-93 | so is a negative number, which may be one further from zero |
| `Decimal.FormatDigit` | benchmark/src/redis_backend.cpp:143-151 | the digit i places from the end of a formatted number counts 10^i, and only zero starts with a zero |
| `Resp.EncodeRequest` | benchmark/src/redis_backend.cpp:143-151 | the array header and one bulk string per argument |
| `Resp.EncodedPair` | benchmark/src/redis_backend.cpp:143-151 | the bytes of a request of two arguments, spelled out |
| `Resp.TakeLineOf` | benchmark/src/redis_backend.cpp:65-84 | a line is recovered exactly when it is at most 16,777,215 characters long |
| `Resp.TakeLineIff` | benchmark/src/redis_backend.cpp:65-84 | a line is exactly what stands before the first carriage return, if a line feed follows and it is within the limit |
| `Resp.ParseEncodedBulk` | benchmark/src/redis_backend.cpp:97-141 | reading a reply undoes the encoding of one argument and consumes exactly its bytes |
| `Resp.SimpleReply` | benchmark/src/redis_backend.cpp:109-110 | a simple string is read as its text |
| `Resp.IntegerReply` | benchmark/src/redis_backend.cpp:111-116 | an integer reply is read as its number, negative ones too |
| `Resp.NilReply` | benchmark/src/redis_backend.cpp:123-124 | a bulk size of -1 is the nil reply |
| `Resp.BulkReply` | benchmark/src/redis_backend.cpp:120-141 | a bulk string is read exactly when its size is within the limit and its bytes and ending follow; other negative sizes are refused |
| `Resp.RefusedReply` | benchmark/src/redis_backend.cpp:97-122 | an error reply, an unknown kind, a missing line and a malformed number are refused |
| `Resp.RequestRoundTrip` | benchmark/src/redis_backend.cpp:143-151 | header line and one reply per argument give back the arguments in order and leave exactly the rest |
| `Resp.RequestPrefixCode` | benchmark/src/redis_backend.cpp:143-151 | no stream starts with two different requests |
| `RedisReader.ReadLine` | benchmark/src/redis_backend.cpp:65-84 | under every schedule the line is the first of the stream; it fails otherwise only where the schedule breaks or blocks, or has fewer moves than the line has bytes |
| `RedisReader.ReadReply` | benchmark/src/redis_backend.cpp:97-141 | under every schedule the reply is the first of the stream; it fails only if the stream is malformed, or the schedule breaks or blocks or has fewer moves than the reply has bytes |
| `RedisReader.Receive` | benchmark/src/redis_backend.cpp:97-151 | a request that arrives under any schedule arrives as its arguments; and it arrives whenever the schedule is smooth and has as many moves as the request has bytes |
| `Workloads.GenerateOperations` | benchmark/src/main.cpp:182-219 | each operation is the one that its draws decide, and one that its workload may generate |
| `Workloads.DrawnOperation` | benchmark/src/main.cpp:182-219 | the key is the draw modulo the keyspace, and a mixed operation is a get exactly when the second draw modulo 100 is below the ratio |
| `Workloads.Prepare` | benchmark/src/main.cpp:258-279 | the keys the workload expects, each with the value, and no others |
| `Workloads.Partition` | benchmark/src/main.cpp:293-297 | the workers' slices follow one another and cover all operations, each with its share |
| `Workloads.SharesEven` | benchmark/src/main.cpp:293-294 | no worker has more than one operation more than another, and the first ones have it |
| `Workloads.DeleteNamesDistinct` | benchmark/src/main.cpp:205-208 | different delete operations have different keys |
| `Workloads.StepChecks` | benchmark/src/main.cpp:221-256 | on any backend, a get-hit fails exactly when the key is absent or holds another value, a get-miss exactly when it is present, a delete exactly when it is absent; only a set and a delete change what is held |
| `Workloads.EveryInterleavingPasses` | benchmark/src/main.cpp:221-256 | prepared and split like that, no interleaving of the workers fails a check; a finished set workload leaves exactly the keys of its operations with the value, a finished delete workload nothing, any other what was prepared |
| `Workloads.RunAdvances` | benchmark/src/main.cpp:301-310 | every worker gets as far as its turns take it, to the end of its slice |
| `Workloads.Phase` | benchmark/src/main.cpp:281-341 | generate, split, prepare and run: the end is the run of the schedule from the prepared state, no worker fails, all finish with enough turns, and the backend holds what the workload should leave |

## Left out

- The hash function itself: any function of the key stands for it; hash quality and lookup cost are not stated.
- Sockets, poll, accept and their options (lib/src/socket.cpp, lib/src/util.cpp): schedules and streams stand for them; error codes and context strings are reduced to the kind of error.
- The client, its prompt, both command lines, usage texts, logging, latency timing, `percentile` and the printing of results.
- The AttoKV backend of the benchmark and `KVStore`: thin wrappers; the commands call the map directly.
- Allocation failure and limits of `std::size_t`: totals and the table's capacity are unbounded integers.
- StringArenas.StringArena.Store: the block index of a reference is not truncated to 32 bits; `BlockIndexFits` says when that makes no difference. Strings are shorter than 2^32 bytes, so that their size is not truncated either.
- FastMaps.FastMap.Remove: only on tables that store a plain map; after an empty key has been stored, a rebuild of the arena leaves the reference of its value behind, which is not modelled. For the same reason the runs of MapRuns store no empty keys.
- Executor.RunCommand: the table of commands is a function of the name instead of a hash map filled at start-up.
- Servers.Server.Run: poll failing, and the listening socket failing, end the process and are not rounds.
- Threads and barriers of the benchmark: a worker's operation is one atomic step on the backend.
- Fairness: which events poll reports, and when a schedule lets a client go on, is arbitrary; what is stated is what one round or call does with them.
