# Proofs about a C++20 web framework

This project models the stateful and parsing core of the framework in Dafny and proves what that
core promises. Each component has a specification in functions, the code's own loops and mutable
objects as methods and classes proved to compute it, and theorems that relate the specification to
something independent: an encoder, a tree, a direct evaluator, a counter without a cache, a
protocol of interleaved steps.

- **WebSocket** (`WebSocket`, `Connections`, `Reassembly`, `Refusals`). The frame reader and writers
  of RFC 6455 with explicit byte arithmetic, and the receive loop as a class over a socket that
  delivers arbitrary chunks. The reader accepts exactly the encodings of frames; the split of the
  byte stream into chunks cannot be observed; what `receive` returns are exactly the reassembled
  messages, and a receive that ends without one sends the bytes RFC 6455 asks for.
- **Templates** (`Views`, `Templates`, `Renderer`, `Rendering`). The string-scanning renderer,
  against a tree with a printer and a direct evaluator. Rendering a printed template equals
  evaluating its tree, with nested blocks, includes, layouts and sections; and each kind of node
  renders what its own words say.
- **Store, queries, relations** (`Database`, `Sorting`, `Selecting`, `Repository`, `Sql`,
  `SqlMeaning`, `SqlSelect`). The in-memory store as a class; one query with two executions (filter,
  stable sort and slice in memory; SQL text with bound values), shown to keep the same rows, and the
  whole SELECT text to ask for the rows, order and stretch that the in-memory select answers; pages
  that partition the result; eager loading that answers like per-parent loading.
- **Database queue** (`Jobs`, `DbQueues`, `Retries`, `Passes`, `QueueProtocol`, `QueueSafety`,
  `QueueLease`, `QueueRefinement`). One worker's pass as a class over the store, and any number of
  workers as a transition system with clock ticks, single writes and crashes. The two are connected:
  a sequential pass is a run of the protocol.
- **Codecs** (`Base64Url`, `Base64Groups`, `Tokens`, `TokenFields`, `TokenCodec`, `Livewire`,
  `Numbers`, `Strings`, `Bits`). Base64url with a wrapping 32-bit accumulator, signed-token claims
  read back by key search, and the wire JSON of the reactive components. Each has its exact
  round-trip condition, and a token is accepted exactly when its code, claims and expiry say so.
- **Time** (`Cache`, `Throttle`, `Scheduler`). A fixed-window limiter whose counter is text in an
  expiring cache, and a scheduler whose stamps live in a map or in a table.

Strings are sequences of characters that stand for bytes. The clock, the socket's chunks, the
outcome of handlers and tasks, and the message authentication code are parameters. An operation that
throws answers `None` or `false`.

## What the code does and its comments do not say

- `encode_text` writes only the low 16 bits of a length: frames of 64 KiB and more are not readable
  (`WebSocket.TextReadsBack`). A pong for more than 125 bytes is no frame (`WebSocket.PongReadsBack`).
- Without a cap on messages, a declared length near 2^64 wraps the size check of `parse_frame`; a cap
  rules that out exactly when it is below 2^64 - 14 (`WebSocket.OverrunThreshold`).
- db_queue.hpp promises that workers never process a job twice. The claim's lease runs from the start
  of the pass: exclusion holds exactly when passes last less than `retry_after`
  (`QueueLease.ExclusionIsExact`), and a late claim can be taken over in the same second
  (`QueueLease.LeaseRunsFromPassStart`).
- Token claims are found by searching for quoted keys, so a subject or ability spelled like a key
  shadows it (`Tokens.CollidingSubject`); which strings come back whatever the times is decided by
  `Tokens.StringsRoundTrip`.
- In the wire JSON a carriage return comes back as the letter r (`Livewire.ObjectRoundTrip`), and
  braces are counted inside strings (`Livewire.FieldReadsObject`).
- scheduler.hpp says that a daily time of "03" means 03:00; without a colon the code takes midnight
  (`Scheduler.ThreeIsMidnight`), which is the hour written only for hour 0
  (`Scheduler.BareHourIsMidnight`).
- `first` overrides a limit of 0 that `get` obeys; they differ exactly then, if any row is there
  (`Repository.FirstDiffersFromGet`).
- The limiter's window is fixed, so `window` seconds can see up to 2 * max - 1 requests admitted, and
  do (`Throttle.IntervalAdmits`, `Throttle.MostIsReached`).

## Model

| member | source | states |
|---|---|---|
| `WebSocket.ParseFrame` | include/websocket.hpp:141-183 | the reader's loops and branches compute the frame specification, for any buffer and cap |
| `WebSocket.ParseEncode` | include/websocket.hpp:141-183 | round trip: any frame in any length form, masked or not, with any bytes behind it, reads back with its opcode, FIN bit, payload and exact size |
| `WebSocket.ParseSound` | include/websocket.hpp:141-183 | whatever the reader accepts is the encoding of a frame with that content, followed by the rest of the buffer |
| `WebSocket.PrefixIncomplete` | include/websocket.hpp:141-183 | every strict prefix of a frame within the cap is neither accepted nor refused |
| `WebSocket.ParseStable` | include/websocket.hpp:141-183 | once a buffer has been answered, bytes arriving later do not change the answer |
| `WebSocket.ParseProgress` | include/websocket.hpp:163-181 | under a cap that leaves room for a header in 64 bits, no index overruns, an accepted frame takes at least two bytes, and an unanswered buffer is at most cap + 13 bytes long |
| `WebSocket.RefusedAtOnce` | include/websocket.hpp:153-166 | a frame declaring more than the cap is refused as soon as its declared length has arrived, whatever else has, and not before |
| `Refusals.FrameSpelled` | include/websocket.hpp:62-79 | the bytes of a frame written out: fin bit and opcode, the length in one, three or nine bytes with the mask bit, the key, the payload masked |
| `Refusals.MaskFlips` | include/websocket.hpp:176-179 | masking flips exactly the bits that are set in the key byte |
| `WebSocket.OverrunThreshold` | include/websocket.hpp:141-175 | some buffer gets a wrapped size past both checks if and only if the cap is at least 2^64 - 14 |
| `WebSocket.OverrunUnderDefaultCap` | include/websocket.hpp:141-175 | an instance: a ten-byte header under the default cap |
| `WebSocket.MaskInvolution` | include/websocket.hpp:176-179 | masking twice with one key restores the data |
| `WebSocket.BigEndianRoundTrip` | include/websocket.hpp:74-75 | a length written big-endian in enough bytes reads back |
| `WebSocket.CopyPayload` | include/websocket.hpp:175-179 | the payload loop unmasks every byte with its own key byte |
| `WebSocket.ReadLength` | include/websocket.hpp:153-162 | the extended length is the big-endian value of its bytes |
| `WebSocket.EncodeText` | include/websocket.hpp:44-56 | the text frame's bytes, header form by payload size |
| `WebSocket.TextReadsBack` | include/websocket.hpp:44-56 | a text frame is a frame the reader gives back exactly when the payload is below 64 KiB |
| `WebSocket.EncodeBinary` | include/websocket.hpp:62-79 | the output is the RFC encoding in the shortest of the three length forms |
| `WebSocket.EncodePong` | include/websocket.hpp:200-206 | the pong's bytes, its length cut to seven bits |
| `WebSocket.PongReadsBack` | include/websocket.hpp:199-206 | a pong is a readable frame exactly for the payloads a ping may carry, at most 125 bytes |
| `WebSocket.EncodeClose` | include/websocket.hpp:192-197 | a close frame holding the status code big-endian |
| `Connections.Connection.ReadFrame` | include/websocket_server.hpp:146-153 | reading stops at the first answer the reader gives, loses no byte, and the buffer never exceeds cap + 13 + 4096 bytes |
| `Connections.Connection.TakeFrame` | include/websocket_server.hpp:154-162 | an oversized or unmasked frame is refused with its close code; otherwise exactly one frame leaves the stream |
| `Connections.Connection.Dispatch` | include/websocket_server.hpp:163-205 | the opcode switch: what is delivered, gathered, answered or refused, and what is sent |
| `Connections.Connection.Turn` | include/websocket_server.hpp:145-206 | one turn of the loop depends on the remaining byte stream only, not on its chunks |
| `Connections.Connection.Receive` | include/websocket_server.hpp:142-207 | chunking does not matter: message, bytes sent and bytes left over are those of the unsplit stream |
| `Connections.Connection.RunTerminal` | include/websocket_server.hpp:293-296 | over a whole connection the inputs handed over and all bytes written depend on the stream alone |
| `Reassembly.Reassembles` | include/websocket_server.hpp:142-207 | on frames that complete a message, however control frames are interleaved, `receive` returns the data fragments joined, answers each ping with one pong in order, and stops right behind the last frame |
| `Reassembly.DeliversOnlyMessages` | include/websocket_server.hpp:142-207 | conversely, any delivered message comes from such frames at the front of the stream and is within the cap |
| `Reassembly.HandleCompletes` | include/websocket_server.hpp:163-205 | how one frame moves a sequence of frames towards completing a message, both directions |
| `Reassembly.MessageFits` | include/websocket_server.hpp:197-203 | the sum of the fragments of a completed message is at most the cap |
| `Refusals.PendingGathers` | include/websocket_server.hpp:142-207 | acceptable frames that complete no message and break no rule gather their fragments and answer their pings, and the receive goes on behind them |
| `Refusals.CloseEnds` | include/websocket_server.hpp:164-174 | behind such frames a close frame ends the receive: pongs, then a close frame with the first two bytes of its payload or none, and the stream left right behind it |
| `Refusals.UnmaskedEnds` | include/websocket_server.hpp:158-161 | an unmasked frame where masks are required is answered by the close frame of code 1002 and stays in the stream |
| `Refusals.MisplacedEnds` | include/websocket_server.hpp:182-196 | a stray continuation, or a new data frame inside a message, is answered by the close frame of 1002 |
| `Refusals.OversizedMessageEnds` | include/websocket_server.hpp:197-201 | a fragment that takes the sum over the cap is answered by the close frame of 1009 |
| `Refusals.OversizedFrameEnds` | include/websocket_server.hpp:154-157 | a declared length over the cap is answered by the close frame of 1009 before the payload is there |
| `Refusals.BrokenOffEnds` | include/websocket_server.hpp:146-153 | a stream that breaks off inside a frame ends the receive with the pongs sent and nothing else |
| `Refusals.EchoIsCloseFrame` | include/websocket_server.hpp:166-173 | the reply to a close is a close frame holding the first two bytes of the payload in their order |
| `Refusals.StatusBytes` | include/websocket.hpp:192-197 | the close frames of 1002 and 1009, byte by byte, and any other code high byte first |
| `Refusals.SessionDelivers` | include/websocket_server.hpp:293-296 | a connection hands over its first message and goes on behind it |
| `Refusals.SessionEnds` | include/websocket_server.hpp:293-296 | it is over with the first receive that ends without one |
| `Refusals.Opcodes` | include/websocket.hpp:118-125 | the opcodes of RFC 6455 |
| `Renderer.Escape` | include/view.hpp:36-49 | the loop replaces each character by its entity |
| `Renderer.EscapedIsInert` | include/view.hpp:36-49 | escaped text holds no angle bracket and no quote |
| `Renderer.MatchingEnd` | include/view.hpp:70-87 | the two-search loop finds the close marker that the list of all control markers determines |
| `Renderer.FindElse` | include/view.hpp:90-111 | the three-search loop finds the else at level zero before the end |
| `Renderer.NextDirective` | include/view.hpp:146-161 | the earliest of the seven searches is the first directive at or behind the cursor |
| `Renderer.CollectSections` | include/view.hpp:117-130 | the loop gathers the rendered blocks of a child template, later ones winning |
| `Renderer.RenderImpl` | include/view.hpp:132-228 | the whole renderer computes the scan specification |
| `Renderer.RenderLoop` | include/view.hpp:144-227 | the cursor loop copies plain text and applies one directive after another |
| `Renderer.ApplyDirective` | include/view.hpp:169-225 | each branch of the directive chain gives the text and the position its marker calls for |
| `Renderer.RenderItems` | include/view.hpp:195-204 | the body once per item, with the item's variables over the context's and its lists only |
| `Views.MarkersDiffer` | include/view.hpp:154-161 | no two markers can stand at one position, so the order of the branches is immaterial |
| `Views.FindIsFirst` | include/view.hpp:70-161 | searching for a control marker is reading the first such marker off the list of all of them |
| `Templates.TokensOfTree` | include/view.hpp:132-228 | the control markers found in a printed tree are the tree's own, then those behind it |
| `Templates.ClosingSkips` | include/view.hpp:70-87 | a balanced body leaves the search for a close tag at the depth it found it, whatever follows |
| `Templates.ElseSkips` | include/view.hpp:90-111 | a balanced body hides its own else tags |
| `Templates.BlockCloses` | include/view.hpp:70-87 | `matching_end` finds the printed block's own close tag |
| `Templates.IfCloses` | include/view.hpp:90-111 | for a printed if, the search finds its own endif and its own else, or none |
| `Templates.RenderTree` | include/view.hpp:153-227 | scanning a printed tree gives its evaluation, then whatever scanning behind it gives |
| `Templates.CollectTree` | include/view.hpp:117-130 | collecting over a printed tree gathers exactly the tree's sections |
| `Templates.RenderDoc` | include/view.hpp:132-252 | rendering any well-formed printed template over any library equals direct evaluation of its tree, includes, layouts and sections included |
| `Rendering.PrintedText` | include/view.hpp:132-228 | the text of every kind of node, markers spelled out |
| `Rendering.ExtendingText` | include/view.hpp:136-142 | the text of an extending template |
| `Rendering.IfRenders` | include/view.hpp:177-187 | a printed if renders its else branch, or nothing, when its variable is missing, empty, "0" or "false", and its then branch for every other value |
| `Rendering.Entities` | include/view.hpp:36-49 | the five entities one by one; every other character stands for itself |
| `Rendering.VariableRenders` | include/view.hpp:169-177 | raw and escaped interpolation of a variable, a missing one being empty |
| `Rendering.ForeachRenders` | include/view.hpp:188-205 | a printed foreach renders its body once per item of its list in order, an item's variable hiding the context's of the same name, with the item's lists only; an unknown list has no items |
| `Rendering.YieldRenders` | include/view.hpp:211-218 | a yield gives the text of its section or nothing |
| `Rendering.IncludeRenders` | include/view.hpp:206-210 | an include renders the template of its name, an unknown one being empty |
| `Rendering.SectionRenders` | include/view.hpp:219-225 | outside an extending template a section renders its body in place |
| `Rendering.ExtendsRenders` | include/view.hpp:136-142 | an extending template renders its layout with the sections it fills, whatever sections it was given |
| `Rendering.LaterSectionWins` | include/view.hpp:117-130 | of two sections of one name the later wins, and both are rendered with no section filled |
| `Rendering.NodesRenderInOrder` | include/view.hpp:144-227 | the nodes of a template render one after another, text as it stands |
| `Rendering.OrdinaryIsWellFormed` | include/view.hpp:144-161 | text without at signs and opening braces, and arguments without at signs and their end character, are well-formed |
| `Rendering.TrimCuts` | include/view.hpp:51-56 | trimming cuts the blanks at both ends and nothing else |
| `Rendering.QuotesComeOff` | include/view.hpp:60-67 | quotes come off an argument only as a pair of one kind around it |
| `Rendering.ListStandsBeforeAs` | include/view.hpp:190-191 | the list of a foreach stands before the first " as " of its argument, or is all of it |
| `Sorting.SortIsStable` | src/database.cpp:73-81 | the sort used as specification of std::stable_sort is sorted, a permutation, and keeps ties in order |
| `Sorting.StablySortedUnique` | src/database.cpp:73-81 | there is only one such result |
| `Database.ValueOrder` | include/database.hpp:21 | the order of cells, by kind and then by value, is a strict total order |
| `Database.RowOrder` | src/database.cpp:76-80 | the comparator is a strict weak order in both directions |
| `Database.IsSqlIdentifier` | include/database.hpp:60-69 | accepts exactly letters, digits and underscores not starting with a digit |
| `Database.SelectedDetermined` | src/database.cpp:48-90 | a query answers with a slice of the one stably sorted sequence of the matching rows, in the requested direction |
| `Selecting.SelectAnswers` | src/database.cpp:48-90 | there is an answer exactly when no order is asked for, fewer than two rows match, or every match holds the column; it is the stretch from the offset, cut at the limit, of the matching rows in the direction asked for, rows with equal cells in table order |
| `Selecting.AnswerInOrder` | src/database.cpp:73-90 | of two rows of the answer the later is never smaller, or, descending, never greater |
| `Selecting.MatchingRows` | src/database.cpp:54-71 | the matching rows are those of the table that satisfy every clause, as often and in the order they stand there |
| `Selecting.ClauseHolds` | src/database.cpp:10-69 | what each operator asks of a cell; a row without the column satisfies no clause |
| `Selecting.TextLessIs` | include/database.hpp:21 | text order: the first difference decides, and a prefix comes first |
| `Selecting.CellOrder` | include/database.hpp:21 | cells of one kind compare by value; integers come before reals, reals before text, text before booleans |
| `Selecting.IntegerOf` | include/database.hpp:27-44 | a cell read as an integer: reals lose their fraction toward zero, text is 0 |
| `Selecting.IdentifierCodes` | include/database.hpp:60-69 | identifiers by the ASCII codes of their characters |
| `Database.UpdateIfIsReadCompareWrite` | include/database.hpp:114-121 | the store's compare-and-set equals the base class's find, compare, update |
| `Database.WritesKeepStore` | src/database.cpp:24-137 | every write keeps ids unique and ascending and below the counter, and an insert takes a larger id |
| `Database.InsertReadsBack` | src/database.cpp:24-39 | after an insert a read finds the row under an id nothing had; all other reads are unchanged |
| `Database.UpdateReadsBack` | src/database.cpp:92-104 | after an update a read finds the written row with its old id; all other reads are unchanged |
| `Database.RemoveReadsBack` | src/database.cpp:106-118 | after a removal nothing is found under the id and all other reads are unchanged; the answer is true if and only if the id was found before |
| `Database.WithoutKeepsOthers` | src/database.cpp:110-117 | the rows left are exactly those with another id |
| `Database.MemoryConnection.Insert` | src/database.cpp:24-30 | the new row goes last under the next id |
| `Database.MemoryConnection.Find` | src/database.cpp:32-39 | the first row with the id |
| `Database.MemoryConnection.All` | src/database.cpp:41-46 | the rows in insertion order, none for an unknown table |
| `Database.MemoryConnection.RowKept` | src/database.cpp:56-69 | true exactly when the row satisfies every clause |
| `Database.MemoryConnection.Select` | src/database.cpp:48-90 | filter, sort, offset and limit as the query specifies; throws only where the sort meets a row without the column |
| `Database.MemoryConnection.Update` | src/database.cpp:92-104 | replaces the row with the id, which keeps its id |
| `Database.MemoryConnection.Remove` | src/database.cpp:106-118 | drops the rows with the id and says whether there were any |
| `Database.MemoryConnection.UpdateIf` | src/database.cpp:120-137 | writes only if the guard column still holds the observed value |
| `Database.MemoryConnection.Count` | include/database.hpp:127-133 | the number of matching rows whatever the order, limit and offset |
| `Database.MemoryConnection.Rollback` | src/database.cpp:149-155 | restores rows and id counters, or does nothing without an open transaction |
| `Repository.QueryBuilder.Where` | include/repository.hpp:49-56 | adds the clause, or throws and leaves the query alone on an unsafe column |
| `Repository.QueryBuilder.WhereIn` | include/repository.hpp:57-64 | likewise for a value list |
| `Repository.QueryBuilder.OrderBy` | include/repository.hpp:65-68 | likewise for the order |
| `Repository.QueryBuilder.Count` | include/repository.hpp:111 | the number of matching rows, whatever order and limits |
| `Repository.QueryBuilder.Get` | include/repository.hpp:95-99 | the query's rows, mapped in order |
| `Repository.QueryBuilder.First` | include/repository.hpp:101-107 | the head of the answer without limit |
| `Repository.FirstIsHead` | include/repository.hpp:101-107 | asking for one row gives the first of all rows, and any limit gives a prefix |
| `Repository.FirstDiffersFromGet` | include/repository.hpp:95-107 | `first` and the head of `get` differ if and only if the limit was set to 0 and the unlimited answer is not empty |
| `Repository.QueryBuilder.Paginate` | include/repository.hpp:79-93 | computes the page specification, ignoring limit and offset already set |
| `Repository.PageIsStretch` | include/repository.hpp:79-93 | page n is the stretch of the whole ordered answer that starts n - 1 pages in, page 0 being page 1, and says its number, size and total |
| `Repository.PagesPartition` | include/repository.hpp:79-93 | pages 1 to last_page, end to end, are the whole ordered answer; every page but the last is full, later ones are empty; each says its own number, the page size, the number of pages and the length of the whole answer |
| `Repository.SizelessPages` | include/repository.hpp:79-93 | pages of size 0 are empty and there is one of them |
| `Repository.HasMany` | include/relations.hpp:18-22 | the children of one parent, in order |
| `Repository.ChildrenAre` | include/relations.hpp:18-22 | one parent's children are the rows whose foreign key is its id, in table order |
| `Repository.LoadHasMany` | include/relations.hpp:40-53 | one IN query, its rows grouped by key in order |
| `Repository.EagerMatchesPerParent` | include/relations.hpp:18-53 | each requested id's group equals what per-parent loading answers, an id without children has no entry, and there is no other key |
| `Sql.AppendWheres` | src/sqlite_connection.cpp:69-81 | grows the text by the WHERE clause, or throws on an unsafe column |
| `Sql.BindWheres` | src/sqlite_connection.cpp:83-92 | binds the values of the clauses first to last |
| `Sql.SelectSql` | src/sqlite_connection.cpp:155-165 | the whole SELECT text with order, limit and offset, or a throw on an unsafe name |
| `Sql.WheresMarks` | src/sqlite_connection.cpp:69-92 | as many `?` in the clause as values bound |
| `Sql.MarksAlign` | src/sqlite_connection.cpp:69-92 | before every clause, marks written and values bound are equally many, so the k-th `?` takes the k-th value |
| `Sql.SelectMarks` | src/sqlite_connection.cpp:155-173 | no other part of the SELECT text holds a `?` |
| `SqlMeaning.LexClause` | src/sqlite_connection.cpp:12-22 | each clause's text is read back as its column, operator or list, and marks |
| `SqlMeaning.ComparesAsMatches` | src/database.cpp:10-21 | between cells of one kind, comparing stored cells is comparing values, booleans as 0 and 1 included |
| `SqlMeaning.WhereMeansFilter` | src/sqlite_connection.cpp:12-92 | the WHERE text, tokenised and evaluated under its bindings, keeps a row exactly when the in-memory filter does |
| `SqlMeaning.TableMeansFilter` | src/database.cpp:54-71 | over a table it keeps the same rows in the same order |
| `SqlMeaning.OneClause` | src/sqlite_connection.cpp:12-92 | with no hypothesis on the values, the text of one clause evaluates to the comparison of the stored cells |
| `SqlMeaning.ExecutionsAgreeIff` | src/sqlite_connection.cpp:12-35 | for every operator, any cell and any operands, the two executions of a clause agree if and only if no operand is confused with the cell (equal text up to a NUL, an equal number of another kind) or, for an ordering, misordered against it |
| `SqlMeaning.CutKeepsOrder` | src/sqlite_connection.cpp:33 | cutting texts at their first NUL keeps their order unless it makes them equal |
| `SqlMeaning.BeyondAgreement` | src/sqlite_connection.cpp:24-35 | a row and a clause of each sort on which the evaluated WHERE text keeps what the filter drops |
| `SqlSelect.SelectReadsBack` | src/sqlite_connection.cpp:155-165 | the whole SELECT text reads back as its table, its condition, its order with its direction, its limit and its offset |
| `SqlSelect.SelectMeansQuery` | src/sqlite_connection.cpp:155-173 | the statement read back and carried out on stored cells has the answer of the in-memory select among its answers: the same rows kept, sorted by the stored cells, from the same row to the same row |
| `DbQueues.DbQueue.Push` | include/db_queue.hpp:51-59 | adds one unclaimed job row with no attempts, due now or after its delay, column by column |
| `DbQueues.DbQueue.WorkOne` | include/db_queue.hpp:71-110 | the loop body claims, runs and finishes one snapshot row as specified, skipping what is not due or was claimed meanwhile |
| `DbQueues.DbQueue.Bury` | include/db_queue.hpp:95-100 | the failed job is inserted into failed_jobs with its name, payload and error, column by column |
| `DbQueues.DbQueue.Work` | include/db_queue.hpp:67-113 | a pass over the store is the pass over the typed tables, and counts the jobs it processed |
| `Retries.PassOnRow` | include/db_queue.hpp:67-113 | a whole pass does to every job what it would do to that job alone |
| `Passes.PassAnswers` | include/db_queue.hpp:67-113 | the number answered is that of the rows due, which is that of the handlers run and the rows dropped; each due row is processed once, in table order; exactly those that threw with their attempts spent are buried, with the error thrown |
| `Passes.PassCounts` | include/db_queue.hpp:67-113 | on any tables, the number answered is that of the handlers run and the rows dropped |
| `Passes.PassLeaves` | include/db_queue.hpp:71-110 | what a pass leaves of a row: itself if not due, nothing if it succeeded, has no handler or is spent, else one more attempt, unclaimed, with the backoff times its attempts to wait |
| `Passes.PushLeaves` | include/db_queue.hpp:51-59 | a pushed job waits under the next id, unclaimed and without attempts, and no other row changes |
| `Retries.RetryBudget` | include/db_queue.hpp:92-109 | over any mix of passes and pushes, an always-failing job runs at most max(1, max_attempts) times, is gone exactly when it has, counts its runs in attempts, and waits retry_backoff * k between runs k and k + 1; the table failed_jobs grows by exactly the logged rows in order, of which one is this job's, with its name and payload, when it is gone and none before |
| `Retries.OneFailedRow` | include/db_queue.hpp:94-101 | where no other job has its name and payload, failed_jobs gains exactly one row with them when the job is gone and none before |
| `Retries.FailedIsLog` | include/db_queue.hpp:94-101 | over any passes and pushes, failed_jobs is what it was followed by the rows buried, in order |
| `Retries.FailingJobDrains` | include/db_queue.hpp:67-113 | passes that each come at or after its waiting time run a failing job every time until its budget is spent; then its row is gone and its failure is in |
| `Retries.DueJobRuns` | include/db_queue.hpp:70-90 | progress: a pass at or after the time it waits for runs such a job once more |
| `QueueSafety.LedgerHolds` | include/db_queue.hpp:51-113 | in every reachable state each job is accounted for and every copy a worker holds is of a pushed job |
| `QueueSafety.NoJobLost` | include/db_queue.hpp:51-113 | under any interleaving, timing and crashes, a pushed job is a row, or its handler succeeded, or it was dropped for want of a handler, or a matching failed_jobs row exists |
| `QueueSafety.NoneReturns` | src/database.cpp:24-137 | a job id whose row is gone never has a row again |
| `QueueSafety.SafeHolds` | include/db_queue.hpp:64-113 | while passes end within their lease, each held row carries its holder's stamp and every handler return is accounted for once |
| `QueueSafety.MutualExclusion` | include/db_queue.hpp:77-81 | while every pass has ended within retry_after of its own start, no two workers hold one job |
| `QueueSafety.SucceedsOnce` | include/db_queue.hpp:89-91 | a handler returns at most once more than crashes hit the job between return and removal |
| `QueueSafety.NoDoubleSuccess` | include/db_queue.hpp:12-17 | without crashes no job's handler returns twice |
| `QueueLease.ExclusionIsExact` | include/db_queue.hpp:75-81 | for every configuration and every bound on how long passes last: no run lets two workers hold one job if and only if the bound is below retry_after (below 0 when that is not positive) |
| `QueueLease.LeaseRunsFromPassStart` | include/db_queue.hpp:75-81 | under every configuration, a run without crashes whose passes last at most retry_after in which a job is taken over in the second it was claimed |
| `QueueRefinement.PassIsRun` | include/db_queue.hpp:67-113 | every sequential pass is a run of the interleaving protocol that ends in the same tables and records exactly the ids it ran to success, dropped and buried |
| `Base64Url.Encode` | include/token.hpp:78-93 | the loops with a wrapping 32-bit accumulator compute the encoding by groups of three bytes |
| `Base64Url.Decode` | include/token.hpp:104-118 | the decoder's loop from its accumulator state, stray characters skipped |
| `Base64Url.EncodedShape` | include/token.hpp:78-93 | the length is ceil(4n / 3) and only alphabet characters occur |
| `Base64Url.DecodeEncode` | include/token.hpp:78-118 | decoding an encoding gives back every byte string, both accumulators wrapping |
| `Base64Groups.AlphabetIs` | include/token.hpp:78-102 | the alphabet by its ASCII codes, in both directions |
| `Base64Groups.EncodedGroups` | include/token.hpp:78-93 | every three bytes, padded with zeros at the end, are the 24 bits of the four characters they become |
| `Base64Groups.AnyTextDecodes` | include/token.hpp:104-118 | any text decodes to the bytes that the six bits of each of its alphabet characters make, end to end; a last incomplete byte is dropped |
| `TokenCodec.JsonEscape` | include/token.hpp:128-135 | quotes and backslashes get a backslash, nothing else changes |
| `TokenCodec.ClaimsText` | include/token.hpp:137-145 | the claims as text |
| `TokenCodec.ReadStringField` | include/token.hpp:149-163 | the string behind the first occurrence of the quoted key |
| `TokenCodec.ReadInt` | include/token.hpp:165-180 | the number behind the key, 0 when there is none or it does not fit |
| `TokenCodec.ReadStringArray` | include/token.hpp:182-205 | the strings that begin before the first closing bracket |
| `TokenCodec.ConstantTimeEqual` | include/token.hpp:120-126 | the accumulated difference is zero exactly for equal strings |
| `TokenCodec.ParseClaims` | include/token.hpp:207-214 | the four extractions together |
| `TokenCodec.Sign` | include/token.hpp:219-225 | header, claims and code, base64url and joined by dots |
| `TokenCodec.Verify` | include/token.hpp:230-245 | the claims of a token whose code matches and that has not expired |
| `Tokens.VerifiedIffAccepted` | include/token.hpp:230-245 | a token is answered with claims c if and only if it is three parts with no dot in the first two, the last the code of the first two, c what the middle one holds, and c has not expired |
| `TokenFields.SignedSpelled` | include/token.hpp:137-225 | a signed token letter by letter: header, claims text and code, each encoded, with dots between |
| `TokenFields.EscapesSpelled` | include/token.hpp:128-135 | quotes and backslashes get a backslash in front, every other character stands for itself |
| `TokenFields.StringFieldReads` | include/token.hpp:149-163 | in any text, a string field is the string behind the colon behind the first quoted key; without key, colon or quote it is empty |
| `TokenFields.IntFieldReads` | include/token.hpp:165-180 | in any text, a number field is the number behind the colon behind the first quoted key, 0 without one or where it does not fit |
| `Tokens.ClaimsReadBack` | include/token.hpp:137-214 | exactly what is read from the text of any claims, key collisions and brackets included |
| `Tokens.VerifySigned` | include/token.hpp:219-245 | a signed token verifies under the same secret, for any code function, and gives back exactly those claims unless they have expired |
| `Tokens.StringsRoundTrip` | include/token.hpp:137-245 | verify after sign is the identity for all times, short of expiry, if and only if the subject collides with neither number key, no ability with the expiry key, no colon stands behind an ability that collides with the issue-time key, and only the last ability may hold a closing bracket |
| `Tokens.OrdinaryIsFaithful` | include/token.hpp:147-214 | claims are faithful when no subject or ability is, or ends in a quote followed by, a number key and no ability holds a closing bracket |
| `Tokens.CollidingSubject` | include/token.hpp:165-180 | the subject iat makes the issue time read as 0 |
| `Numbers.LeadingIntOfText` | include/token.hpp:173-176 | a 64-bit number written in decimal reads back whatever follows it |
| `Numbers.ParseIntOfText` | include/http_auth.hpp:177-178 | std::stoi and std::stoll read back what std::to_string wrote, when it fits |
| `Numbers.ParseIntReads` | include/http_auth.hpp:177-178 | white space, a sign and digits are read as the number they write whatever follows; without a digit or outside the range the conversion throws |
| `Numbers.LeadingIntReads` | include/token.hpp:169-180 | likewise for the numbers of claims, where only spaces are skipped and 0 stands for what cannot be read |
| `Numbers.DecimalDigits` | include/token.hpp:137-145 | digits are decimal, the most significant first |
| `Livewire.Esc` | include/livewire.hpp:20-33 | five characters become two, the others stay |
| `Livewire.Object` | include/livewire.hpp:35-43 | the entries in the order given, quoted and separated |
| `Livewire.ObjectSpelled` | include/livewire.hpp:20-43 | the text of an object character by character: the five escapes, quotes, colons, commas and braces |
| `Livewire.ReadString` | include/livewire.hpp:87-98 | a string up to its closing quote, with only two escapes decoded specially |
| `Livewire.ParseObject` | include/livewire.hpp:83-111 | the entries of the text, later ones winning |
| `Livewire.ParsedObject` | include/livewire.hpp:35-111 | what any object reads back as, carriage returns worn to the letter r |
| `Livewire.ObjectRoundTrip` | include/livewire.hpp:35-111 | for every iteration order, an object reads back as its map exactly when no key or value holds a carriage return |
| `Livewire.ObjectField` | include/livewire.hpp:68-80 | the first brace group behind the key |
| `Livewire.FieldMissing` | include/livewire.hpp:68-80 | without the key or a brace the field is an empty object |
| `Livewire.FieldReadsObject` | include/livewire.hpp:68-80 | a nested object is cut out whole exactly when the braces in its strings balance |
| `Livewire.PostedState` | include/livewire.hpp:209-216 | state without braces and carriage returns arrives as it was sent |
| `Cache.ArrayCache.PutFor` | include/cache.hpp:51-55 | the value with the time it expires |
| `Cache.ArrayCache.Get` | include/cache.hpp:56-65 | the value if it has not expired; an expired one is dropped |
| `Cache.PurgeUnseen` | include/cache.hpp:56-65 | dropping an expired entry changes no later answer |
| `Cache.PutLasts` | include/cache.hpp:51-65 | a value answers until its lifetime is over and never after, and other keys do not notice |
| `Throttle.Handle` | include/http_auth.hpp:160-201 | one request: the counter read, advanced and put back as text, and the answer with its wait |
| `Throttle.SlotTextReadsBack` | include/http_auth.hpp:174-193 | the counter's text reads back as the counter |
| `Throttle.BrokenTextStartsAnew` | include/http_auth.hpp:172-186 | a missing counter, one without separator or with a side that is no number of its width starts anew |
| `Throttle.WindowAdmits` | include/http_auth.hpp:187-199 | every window admits its first max requests and no more |
| `Throttle.IntervalAdmits` | include/http_auth.hpp:160-201 | in any window seconds of any run, at most 2 * max - 1 requests are admitted, and at most max when the window is one second |
| `Throttle.MostIsReached` | include/http_auth.hpp:160-201 | for all limits some run reaches that bound |
| `Throttle.LimiterAdmits` | include/http_auth.hpp:160-201 | the same bound on the answers of the cache-backed limiter, for each client in any interleaving of clients |
| `Throttle.NeverLockedOut` | include/http_auth.hpp:154-159 | a request window seconds after its window began is admitted however hard the client hammers, and the wait told to a refused one leads there |
| `Throttle.WaitIsLeast` | include/http_auth.hpp:194-198 | the wait told is the least: the next request is admitted if and only if that many seconds have passed |
| `Throttle.ToldWaitIsExact` | include/http_auth.hpp:160-201 | the same on the answers of the cache-backed limiter, whatever other clients do in between |
| `Throttle.CacheHolds` | include/http_auth.hpp:166-193 | each client's entry in the cache is the counter of its own requests |
| `Throttle.ExpiryUnseen` | include/cache.hpp:51-65 | over any interleaving of clients the expiry is never observed: answers are those of a counter that never expires |
| `Throttle.PromptnessIsExact` | include/http_auth.hpp:168-191 | for all limits: answers are those of a counter that never expires if and only if counters are read within one window of the request |
| `Throttle.StragglerIsAdmitted` | include/http_auth.hpp:168-191 | for all limits, a read one nanosecond later admits a request the counter would refuse |
| `Throttle.StalledReadRestarts` | include/http_auth.hpp:168-191 | the smallest instance |
| `Scheduler.ParseClock` | include/scheduler.hpp:86-91 | hour and minute around the first colon, midnight without one |
| `Scheduler.ClockReadsBack` | include/scheduler.hpp:86-91 | every time of the form HH:MM, leading zeros included, reads back |
| `Scheduler.DigitsReadBack` | include/scheduler.hpp:86-91 | any digits around the colon read back as hour and minute |
| `Scheduler.BareHourIsMidnight` | include/scheduler.hpp:86-91 | any text without a colon is midnight, so an hour written alone is read as documented if and only if it is 0 |
| `Scheduler.ThreeIsMidnight` | include/scheduler.hpp:88 | the comment's own example, "03", is read as midnight |
| `Scheduler.TickFires` | include/scheduler.hpp:67-77 | a tick starts exactly the due tasks in order up to the first that throws, and stamps exactly those |
| `Scheduler.StartsWhen` | include/scheduler.hpp:42-77 | a tick that comes to a task starts it if and only if: for an every task, its stamp is 0 or at least its interval old; for a daily task, the trigger is past and its stamp before it |
| `Scheduler.EveryFiresAgain` | include/scheduler.hpp:42-77 | over any run of ticks: a tick that comes to an every task starts it if and only if it never fired or its last firing is at least its interval ago |
| `Scheduler.DailyFiresAgain` | include/scheduler.hpp:53-77 | over any run of ticks: a tick that comes to a daily task starts it if and only if the trigger is past and its last firing before it |
| `Scheduler.RunSpaced` | include/scheduler.hpp:42-77 | over any run of ticks, firings of a task are as far apart as its cadence asks and never later than its stamp |
| `Scheduler.EverySpaced` | include/scheduler.hpp:42-51 | two firings of an every task are at least its interval apart, over restarts and throwing tasks |
| `Scheduler.DailyOnce` | include/scheduler.hpp:53-62 | a daily task whose trigger depends only on the day fires at most once a day and never before its trigger |
| `Scheduler.FirstNamed` | include/scheduler.hpp:110-114 | the stamp read by a query is the one the table holds for the name |
| `Scheduler.RecordedAgrees` | include/scheduler.hpp:117-135 | recording keeps one row per name, changes the table's stamps as it would the map, and touches no other table |
| `Scheduler.Schedule.AddDailyAt` | include/scheduler.hpp:53-62 | registers the task with the trigger of its parsed time |
| `Scheduler.Schedule.LastRun` | include/scheduler.hpp:105-115 | the stamp of a name, 0 if none, in both modes |
| `Scheduler.Schedule.RecordRun` | include/scheduler.hpp:117-135 | the stamps change as a map would, in both modes |
| `Scheduler.Schedule.RunPending` | include/scheduler.hpp:67-77 | the loop over the map or the table starts and stamps what the tick over a map does |

## Left out

- Sockets, threads, files, SMTP and the handshake: I/O. `recv` is a list of non-empty chunks of at most 4096 bytes, `send` a log; a failing send is not modelled.
- OpenSSL: the message authentication code is an arbitrary function; no cryptographic claim is made.
- SQLite's execution: a SELECT text is read and carried out by a small reader and evaluator with exact column lookup, the usual cell comparison, a list of reserved words, and table order where none is asked for; column affinity and numbers beyond 64 bits are not modelled. Insert, update and remove texts are not modelled.
- SqlSelect.SelectMeansQuery: for the rows and columns of WhereMeansFilter and an order column that every row holds with cells of one kind. SQLite may order ties otherwise than by the table, so the in-memory answer is shown to be one of the statement's answers.
- Rendering.IncludeRenders: for a positive depth of inclusion, like the other results about templates.
- SqlMeaning.WhereMeansFilter: for rows that hold every column named, cells and operands of one kind without NUL, and columns that are no reserved word; `SqlMeaning.ExecutionsAgreeIff` has the exact condition on the values of one clause.
- Templates.RenderDoc: on printed templates. An unterminated directive, on which the code goes on at a wrapped position, and inclusion deeper than a given depth are the answer None in both the scan and the evaluation, so recursive includes are not claimed to render.
- Renderer.RenderImpl: takes the depth of inclusion as a parameter for the same reason.
- std::stable_sort is a specification function with its properties proved, not its algorithm. NaN is not modelled; doubles are reals.
- Widths: times, ids, attempts, counters and the page offset product are unbounded integers. Lengths and codes of frames, the base64 accumulator and parsed numbers have their widths.
- Throttle.ExpiryUnseen: for fewer than 2^31 requests, one request at a time, each reading its counter within a window of being seen, which `Throttle.PromptnessIsExact` shows to be needed; overlapping requests of one client lose counts, as the code says.
- Connections.Connection.Receive: for caps below 2^64 - 14, so that no size wraps; by `WebSocket.OverrunThreshold` those are all the caps under which it cannot.
- QueueSafety.MutualExclusion: for passes that end within their lease; `QueueLease.ExclusionIsExact` says that this is needed. Jobs are rows with all their columns typed, and no transaction is rolled back meanwhile.
- Retries.RetryBudget: for passes that do not overlap and do not crash, since overlapping passes write back stale attempts.
- Handlers that throw something that is no std::exception, and handlers that use the queue's own tables.
- Mutexes: each store operation is one atomic step.
- Scheduler.DailyOnce: the local calendar is a trigger function of the day; days with a clock change are outside the claim.
- Scheduler.TickFires: for distinct task names; tasks sharing a name share a stamp.
- Livewire components, `field`, the update cycle and HTML; the single-frame `decode` helper; the hub of connections; `transaction`, `has_one` and `belongs_to`: thin compositions. Setters such as `begin`, `commit`, `limit` and `forget` are modelled and have no row.
- Routing, container, facades, events, mail, validation, configuration, generators, the browser client: no hard property.
