# A model of an epoll web server, its timers, queues and pools

This project models, in Dafny, the parts of an HTTP server whose behaviour is spread over many calls, many
threads or many pointers, and proves what the server relies on there.

- **The request parser** (`HttpRequest`, `HttpChunking`, `HttpSplitBody`, `HttpSurplusBody`, `HttpGrammar`,
  `HttpFields`, `HttpDelivery`, `HttpRejection`, and in place in `HttpConn`). A cursor looks for line ends in the
  receive buffer, lines are rewritten inside the buffer, and a three-state machine is entered again after every read.
  The main result is that the way the bytes were split into reads does not matter. `HttpGrammar` and `HttpFields` give
  an independent meaning: a message is written out as bytes, its header fields from names, blanks, numbers and words,
  and parsing those bytes gives it back. `HttpRejection` is the other direction: nothing else is taken for a request
  line, and which streams are bad requests is said exactly.
- **The answer** (`HttpResponse`, `GatherWrite`, and in place in `HttpResponder`). A header in the write buffer and
  a mapped file are sent by gather writes that may stop anywhere. Every byte on the wire is traced to the place it
  was taken from.
- **Three timer stores**: the sorted doubly linked list (`TimerTable`, in place in `TimerList`), the wheel of sixty
  slots (`WheelTable`, `WheelMemory`, in place in `TimingWheel`) and the growable heap (`HeapOrder`, in place in
  `TimeHeap`). `IdleTimeout` and `ServerTimers` add what the web server does with the list over whole runs.
- **Concurrent protocols**, for any number of threads: the thread pool (`ThreadPool`), who may act on a connection
  (`EventOwnership`), the pool of database connections (`ConnectionPool`), the blocking log queue (`LogRing`,
  `LogQueue`) and the asynchronous logger (`AsyncLog`). A thread has a program counter; what it does while it holds
  a mutex is one step, except in `ConnectionPool`, where the statements under the lock are steps of their own.
- **Bookkeeping of parent processes**: round-robin dispatch over children that die (`Dispatch`) and the user table of
  the chat server with its index by process id (`ChatTables`).

Where the source works by changing objects, there is a class with those fields, and each of its methods is proved
equal to a function on values (`View`, `Table`); the theorems are about these functions and about runs of them. Linked
lists carry a ghost sequence of their nodes, and well-formedness says that `prev` and `next` mirror each other along
it. A character stands for a byte, and a C string is what precedes the next NUL.

## Where the code does not do what it is for

Some lines of the source defeat the purpose of the code around them. Such an operation takes a `Version`. `AsWritten`
is the line as it stands. `Repaired` is the line that the code around it needs. The property is proved for the repaired
code without restriction; for the code as written it is proved exactly when it holds, and that it fails otherwise.

| line | as written | repaired | as written it is right exactly |
|---|---|---|---|
| http_conn/http_conn.cpp:397 (with 356-357) | after an incomplete body the loop looks for a line end in it, which moves the cursor | the loop returns | if some read end reaches the announced length behind the cursor, and the body taken from the line start then means the same (`HttpSurplusBody.AsWrittenRightExactly`); always if no read cuts the body (`HttpSplitBody.AsWrittenIndependence`) |
| http_conn/http_conn.cpp:584, 593 | the count of all bytes sent is compared with, and taken from, a length that was reduced before | `m_write_idx` is used | if at most one write ends strictly inside the header (`GatherWrite.AsWrittenWrite`) |
| timer/lst_timer.h:96 | `head->next` is cleared after `head` has moved on, so the list is cut behind its second node | `timer` is detached | unless the first of three or more timers is moved (`TimerTable.AdjustAsWritten`, `IdleTimeout.AsWrittenStep`) |
| timer/TimingWheel.h:132 | the successor's `prev` is set to the successor | it is set to `temp->prev` | unless a due timer, other than the last of its slot, is behind one that has more rounds to wait (`WheelMemory.AsWrittenWalk`, `TimingWheel.TimeWheel.Tick`) |
| timer/time_heap.h:158 | a comparison stands where an assignment is needed | an assignment | if the timer does not sink at all (`HeapOrder.PercolateAsWritten`, `HeapOrder.BuiltAsWritten`) |

Other places where the model takes a decision:

- A URL whose authority has no path leaves `m_url` null before line 275 of http_conn/http_conn.cpp reads it. The
  model continues with the answer of line 280, a bad request.
- http_conn/http_conn.cpp:341 stores a NUL behind the body without looking at the size of the buffer or the sign of
  the length. The model calls the case in which that is outside the buffer, or the length is negative,
  `StrayTerminator`, and claims nothing about what follows.
- A bad request is answered with status 404, and an empty file closes the connection because its case runs into the
  default one (http_conn/http_conn.cpp:688-695, 718-727). The model follows the code.
- A bare line feed is a bad line (http_conn/http_conn.cpp:173-181), although section 2.2 of RFC 9112 allows a
  recipient to accept it. A bad line is not answered: the request never completes.
- The results of `sem_wait` are ignored (process_thread_pool/threadpool.h:124, conn_mysql/sql_connection_pool.cpp:72),
  and WXP_websever.cpp:139-140 installs handlers without restart. So the models have a step for a wait that a signal
  interrupts. Without such steps no thread finds an empty list; with them the accounts say by how much they are off.
- The timer may close a connection while it is queued or with a worker. `EventOwnership` shows what this leads to.
- A worker that has no answer to give closes the connection (http_conn/http_conn.cpp:749-752) and leaves its timer in
  the list. When the descriptor is accepted again before that timer expires, the alarm closes the new connection,
  however active it is. So "the alarm closes exactly the idle connections" holds if and only if no timer of an earlier
  connection is in the way (`IdleTimeout.AlarmExactly`); the order of the list and the bound on idleness hold in every
  run (`IdleTimeout.NoneIdleTooLong`).
- After a tick of the wheel as written through a slot where two due timers follow each other behind one that is not
  due, the second of the two has fired and been deleted, and can still be reached from the slot.

## Model

| member | source | states |
|---|---|---|
| HttpChunking.ChunkingIndependence | http_conn/http_conn.cpp:350-412 | For every sequence of reads, the outcome (method, URL, keep-alive flag, body, or no request yet) of processing after each read until one completes is that of one run over all bytes. |
| HttpChunking.ProcessMore | http_conn/http_conn.cpp:350-412 | Processing a prefix and going on after more bytes arrive ends in the same state and outcome as processing everything at once. |
| HttpChunking.ScanMore | http_conn/http_conn.cpp:153-185 | The line scanner, stopped at the end of what has arrived, finds the same line end when started again from where it stopped. |
| HttpChunking.StepKeepsUrl | http_conn/http_conn.cpp:257-285 | The URL kept as a place in the buffer stays NUL-terminated in front of all bytes that are still to be parsed. |
| HttpSplitBody.AsWrittenIndependence | http_conn/http_conn.cpp:350-412 | The code as written gives the outcome of the whole stream if no read cuts the body; if one does and nothing follows the request, it never completes; streams without a complete body are unaffected. |
| HttpSurplusBody.AsWrittenExactly | http_conn/http_conn.cpp:356-397 | For every stream with a complete request that has a body, and every split: the outcome of the code as written is the one that a fold of line start and cursor over the parts of the body leads to. |
| HttpSurplusBody.AsWrittenRightExactly | http_conn/http_conn.cpp:337-346 | It is the right outcome if and only if some read completes the body and the window at the line start fits the buffer and means the same, and it never completes if and only if no read end reaches the announced length behind the cursor. |
| HttpSurplusBody.TextBody | http_conn/http_conn.cpp:153-185 | If the parts of a body have no line ends, the first part as long as the body completes it, and what is handed over begins two reads earlier. |
| HttpSurplusBody.TextBodyWaits | http_conn/http_conn.cpp:337-346 | And if no part is that long, the request never completes. |
| HttpSurplusBody.RightAfterOneCut | http_conn/http_conn.cpp:337-346 | A body cut once, in a part without line end, is answered rightly if the next read brings as many bytes as the body has. |
| HttpSplitBody.OneCall | http_conn/http_conn.cpp:356-397 | One call of the code as written equals the repaired one, except that a scanned part of an incomplete body moves the cursor into the body. |
| HttpSplitBody.UnparsedUntouched | http_conn/http_conn.cpp:153-185 | While no request is complete, no byte at or behind the cursor is written. |
| HttpSplitBody.StuckRun | http_conn/http_conn.cpp:339-345 | Once the cursor is inside the body, no further reads complete the request until as many surplus bytes have come. |
| HttpDelivery.DeliveredMessage | http_conn/http_conn.cpp:232-412 | Every valid message that fits the buffer is understood as what it means under every split and whatever follows it. |
| HttpDelivery.DeliveredHead | http_conn/http_conn.cpp:232-412 | The same for every request line with complete header lines, whatever length they announce and whatever follows. |
| HttpDelivery.DeliveredAsWritten | http_conn/http_conn.cpp:232-412 | The same for the code as written, if there is no body or no read cuts it. |
| HttpDelivery.LostBody | http_conn/http_conn.cpp:397 | Every valid message with a body of which a first part is consumed by the scanner is lost by the code as written when a read ends behind that part. |
| HttpDelivery.BadRequestLineNeverCompletes | http_conn/http_conn.cpp:159-182 | A request line that ends in a bare line feed or carriage return never completes, in either version, under any split. |
| HttpDelivery.BadHeaderNeverCompletes | http_conn/http_conn.cpp:159-182 | The same for a header line behind a valid request line and any well-formed headers. |
| HttpRejection.BadExactly | http_conn/http_conn.cpp:232-289 | For every sequence of reads, in both versions: the outcome is a bad request if and only if the stream begins with a line that ends in CR LF and, up to its first NUL, is no request line, which is GET or POST in any case, blanks, a target, blanks and HTTP/1.1 in any case. |
| HttpRejection.BadRequestExactly | http_conn/http_conn.cpp:350-412 | The same for a given first line, whatever follows it. |
| HttpRejection.AcceptedExactly | http_conn/http_conn.cpp:232-289 | A line is accepted if and only if, up to its first NUL, it is a request line. |
| HttpRejection.AcceptedOnly | http_conn/http_conn.cpp:232-289 | What an accepted line consists of: a method, blanks, an authority or nothing, a path that begins with a slash, blanks and the version. |
| HttpRejection.NeverBad | http_conn/http_conn.cpp:292-346 | Behind the first line nothing leads to a bad request. |
| HttpGrammar.MessageAccepted | http_conn/http_conn.cpp:232-412 | Writing a valid message out as bytes and parsing them gives back its method, path and body, and the keep-alive flag that its header lines amount to; what these mean by themselves is HttpFields.FieldsRead. |
| HttpGrammar.RequestLineAccepted | http_conn/http_conn.cpp:232-289 | Every valid request line is accepted, whatever follows a NUL in it, and the URL found in the rewritten buffer is its path, or the default page for "/". |
| HttpGrammar.HeadersAccepted | http_conn/http_conn.cpp:292-346 | Any list of header lines in the buffer is read one by one up to the empty line, and leads to what the body length and keep-alive flag that they amount to decide, whatever that length is. |
| HttpGrammar.HeadDecides | http_conn/http_conn.cpp:232-412 | Every stream that begins with a request line and complete header lines: complete without a body if the length is 0, waiting if less than the length has arrived, the stray terminator if the length is negative or does not fit the buffer with its NUL, and otherwise complete with exactly the announced bytes. |
| HttpFields.FieldRead | http_conn/http_conn.cpp:305-333 | A field written as a name in any case, blanks, and a number with or without a sign, or a word, is read as that number, or as keep-alive exactly if the word says so; any other line changes nothing. |
| HttpFields.NumberRead | http_conn/http_conn.cpp:314-318 | Any number, whatever its size and sign, blanks before it and text behind it: itself if it fits an int, congruent to it modulo 2 to the 32 if it fits a long, and -1 or 0 beyond. |
| HttpFields.FieldsRead | http_conn/http_conn.cpp:292-334 | Of any list of fields the last length counts, and keep-alive holds exactly if some connection field says it. |
| HttpFields.ClientUnderstood | http_conn/http_conn.cpp:232-412 | Every request that fits the buffer is understood as its client means it, under every split and whatever follows it. |
| HttpGrammar.DefaultPageSlack | http_conn/http_conn.cpp:284-285 | Behind the appended default page there are exactly as many free bytes as there are blanks in front of the version, less one: with one blank, none. |
| HttpRequest.DefaultPageFits | http_conn/http_conn.cpp:257-285 | For every accepted line whose URL reduces to "/", the page and its NUL are written below the cursor; it rests on the version text and the two NULs of parse_line. |
| HttpRequest.ParseRequestLine | http_conn/http_conn.cpp:232-289 | The rewritten line keeps its length and its final NUL, and the URL is inside it; which lines are accepted is HttpRejection.AcceptedExactly, and what is found in them HttpGrammar.RequestLineAccepted. |
| HttpRequest.Process | http_conn/http_conn.cpp:350-412 | process_read keeps the invariant of the cursors, and the number of received bytes. |
| HttpConn.HttpConn.ParseLine | http_conn/http_conn.cpp:153-185 | The loop over the buffer finds what the specification of the scanner finds, and writes exactly the two NULs. |
| HttpConn.HttpConn.Read | http_conn/http_conn.cpp:189-229 | What recv delivers is appended to the buffer, in both trigger modes, with the error cases. |
| HttpConn.EndsAt | http_conn/http_conn.cpp:206-228 | The loop of read ends with the first report of recv that is not bytes, and has delivered what came before it. |
| HttpConn.HttpConn.ParseRequestLineInPlace | http_conn/http_conn.cpp:232-260 | The in-place parse of a request line leaves the buffer and fields of the specification, and accepts exactly the lines that it accepts. |
| HttpConn.HttpConn.ParseTargetInPlace | http_conn/http_conn.cpp:257-288 | The same from the URL on, including the appended default page. |
| HttpConn.HttpConn.StrCat | http_conn/http_conn.cpp:285 | strcat in the buffer changes nothing from the cursor on. |
| HttpConn.HttpConn.ParseHeaders | http_conn/http_conn.cpp:292-334 | What one header line changes, and when the empty line completes the request. |
| HttpConn.HttpConn.ParseContent | http_conn/http_conn.cpp:337-346 | The body is handed over, terminated in place, exactly when all of it is there. |
| HttpConn.HttpConn.ProcessRead | http_conn/http_conn.cpp:350-412 | The two-flag loop on the object equals the specification in both versions; it terminates. |
| HttpConn.HttpConn.Reset | http_conn/http_conn.cpp:128-151 | The object is made ready for the next request. |
| GatherWrite.RepairedWrite | http_conn/http_conn.cpp:557-612 | Over every schedule of short writes: what was sent is a prefix of header and file, sent plus to-send is constant, exactly the rest is offered, and to-send is 0 if and only if all was sent. |
| GatherWrite.AsWrittenWrite | http_conn/http_conn.cpp:584-594 | A response that the code as written completes is right if and only if at most one write ended strictly inside the header. |
| GatherWrite.AsWrittenLosesHeader | http_conn/http_conn.cpp:584-594 | For every header of more than three bytes and every file, a schedule of four writes that completes a wrong response. |
| GatherWrite.PageNeverCompletes | http_conn/http_conn.cpp:584-594 | An error page in which two writes end strictly inside is never sent completely: less is offered than is left. |
| GatherWrite.Advance | http_conn/http_conn.cpp:582-594 | Each pass keeps sent plus to-send, and writev is never offered more than is left. |
| GatherWrite.ResponseBytes | http_conn/http_conn.cpp:706-716 | The positions of a whole response are the bytes of the header and then those of the file. |
| HttpResponse.AnswerRead | http_conn/http_conn.cpp:641-734 | For each of the four answered codes, the bytes that go out, read back: the scanner finds the end of a first line that is the version, 500, 404, 403 or 200 in three digits, and the title; behind it stand a length header whose digits are the length of what follows the blank line, and a connection header; what follows is the page of that code, or the file. |
| HttpResponse.Framing | http_conn/http_conn.cpp:641-734 | The answer is a status line, two headers, a blank line and the payload; the parser's own header reading gives back the size of the payload and the keep-alive flag. |
| HttpResponse.DecimalValue | http_conn/http_conn.cpp:651-653 | A length that was printed in decimal is read back by atol. |
| HttpResponder.Responder.AddResponse | http_conn/http_conn.cpp:619-639 | Text is appended if it fits with its NUL and one byte; otherwise the length stays. |
| HttpResponder.Responder.ProcessWrite | http_conn/http_conn.cpp:676-734 | An answer is prepared for exactly the codes that have one, it is the text that HttpResponse.AnswerRead reads back, it fits the buffer, and the two parts of the write are set up. |
| HttpResponder.Responder.Account | http_conn/http_conn.cpp:582-594 | The counters and vector entries after a write are those of the specification, in both versions. |
| HttpResponder.Responder.Write | http_conn/http_conn.cpp:557-612 | write, over any results of writev, ends as idle, complete, blocked or broken in the state that the taken bytes lead to, and resets the object when the connection is kept. |
| TimerTable.InsertSorted | timer/lst_timer.h:155-177 | Insertion behind all that expire no later keeps the order and conserves the timers. |
| TimerTable.AdjustIsReinsert | timer/lst_timer.h:85-104 | Adjusting after an extension is removal followed by stable insertion; it keeps order, timers and keys. |
| TimerTable.AdjustAsWritten | timer/lst_timer.h:93-98 | The code as written agrees, and keeps the timers, if and only if it does not move the first of three or more; then all from the third on are lost. |
| TimerTable.ExpiredExactly | timer/lst_timer.h:133-152 | The entries that tick takes off a sorted table are exactly those whose time has come. |
| TimerList.SortTimerList.AddTimer | timer/lst_timer.h:71-84 | The relinked list stays mirrored, with right ends and sorted, and its table is the stable insertion. |
| TimerList.SortTimerList.AddTimerFrom | timer/lst_timer.h:155-177 | The scan that starts at the second node, with prev at another, still inserts where the timer belongs. |
| TimerList.SortTimerList.AdjustTimer | timer/lst_timer.h:85-104 | The relinked list is well formed in both versions, and its table is the adjusted one. |
| TimerList.SortTimerList.DelTimer | timer/lst_timer.h:105-132 | Exactly the given timer is taken out, in all four cases. |
| TimerList.SortTimerList.Tick | timer/lst_timer.h:133-152 | The callbacks are those of the expired timers in order, and the rest stays as a well-formed list. |
| IdleTimeout.StepKeeps | WXP_websever.cpp:148-184 | Every accept, activity, close by the event loop, close by a worker and alarm keeps: the list in order of expiry, and for each open connection the timer of users_timer, expiring three slots after its last activity. |
| IdleTimeout.ActiveAtEnd | WXP_websever.cpp:166-170 | The timer of an active connection ends at the tail. |
| IdleTimeout.AcceptAtEnd | WXP_websever.cpp:159-162 | The timer of an accepted connection ends at the tail. |
| IdleTimeout.AlarmCloses | timer/lst_timer.h:133-152 | The alarm closes an open connection if and only if it has been idle for three slots or an expired timer of an earlier connection is for its descriptor. |
| IdleTimeout.AlarmExactly | timer/lst_timer.cpp:9-15 | It closes exactly the idle ones if and only if no expired timer of an earlier connection is for an open one that is not idle. |
| IdleTimeout.AlarmExactlyIdle | timer/lst_timer.h:133-152 | If no timer is left behind it closes exactly the idle ones. |
| IdleTimeout.NeverStale | WXP_websever.cpp:361-419 | In every run without closes by workers no timer is left behind. |
| IdleTimeout.ReopenedIsClosedEarly | http_conn/http_conn.cpp:749-752 | From every state: a connection closed by a worker and its descriptor accepted again, an alarm between the two deadlines closes the second connection, which is not idle. |
| IdleTimeout.ClosedAfterOneSecond | http_conn/http_conn.cpp:749-752 | Accepted at 0, closed by a worker, accepted again at 14, closed by the alarm at 15. |
| IdleTimeout.NoneIdleTooLong | WXP_websever.cpp:361-419 | In every run with a nondecreasing clock and alarms at most D apart, closes by workers included, the timers of open connections are in activity order and no connection is idle for three slots plus D. |
| IdleTimeout.AsWrittenStep | timer/lst_timer.h:93-98 | As written, an event does something else if and only if it is activity of the connection whose timer is the first of three or more; then two timers are left. |
| IdleTimeout.AsWrittenKeeps | timer/lst_timer.h:93-98 | It breaks the invariant if and only if a timer that is cut off is that of an open connection. |
| IdleTimeout.LostTimer | timer/lst_timer.h:96 | Right after that event such a connection is open and has no timer in the list. |
| ServerTimers.WebServer.Timer | WXP_websever.cpp:148-163 | users_timer and the list after an accepted connection are those of the event, and users_timer finds its node. |
| ServerTimers.WebServer.AdjustTimer | WXP_websever.cpp:166-173 | The same for activity, in both versions; as written the server stays valid exactly if no timer of an open connection is cut off. |
| ServerTimers.WebServer.DealTimer | WXP_websever.cpp:175-184 | The same for a close. |
| ServerTimers.WebServer.WorkerCloses | http_conn/http_conn.cpp:95-104 | A close by a worker changes neither users_timer nor the list. |
| ServerTimers.WebServer.TimerHandler | timer/lst_timer.h:237-240 | The same for the alarm; the descriptors that are closed are those of the expired timers, and exactly the idle ones of the open ones under the condition of AlarmExactly. |
| WheelTable.AddedFiresOnTime | timer/TimingWheel.h:60-142 | In every run a timer added with timeout t and not deleted fires exactly once, in the (t+1)-th later tick. |
| WheelTable.DeletedNeverFires | timer/TimingWheel.h:87-107 | In every run a deleted timer does not fire. |
| WheelTable.AddedWaits | timer/TimingWheel.h:60-85 | After an addition the new timer waits for t ticks and all others as before. |
| WheelTable.DeletedWaits | timer/TimingWheel.h:87-107 | After a deletion the timer is gone and all others wait as before. |
| WheelTable.TickedWaits | timer/TimingWheel.h:109-142 | A tick counts every waiting timer down by one, and fires exactly those that waited for none, once. |
| WheelTable.SlotOrder | timer/TimingWheel.h:112-139 | Due timers of a slot fire in the order of the slot, and the others keep theirs. |
| WheelMemory.WholeWalk | timer/TimingWheel.h:112-140 | The repaired traversal that unlinks on its way leaves the list of the timers not due, in order, linked both ways. |
| WheelMemory.WholeTrail | timer/TimingWheel.h:112-140 | What the traversal as written leaves: which timers next leads through, and where each of them points back. |
| WheelMemory.AsWrittenWalk | timer/TimingWheel.h:130-133 | What next leads through is a list linked both ways if and only if no due timer, other than the last, comes behind a kept one; otherwise a kept timer is followed by one that does not point back. |
| WheelMemory.StayIn | timer/TimingWheel.h:112-140 | The timers that stay, in order, are exactly those not due and those right behind a due one that is itself behind one not due. |
| TimingWheel.TimeWheel.AddTimer | timer/TimingWheel.h:60-85 | The slots stay disjoint mirrored lists of timers of their own slot, and the wheel is the one of the specification. |
| TimingWheel.TimeWheel.DelTimer | timer/TimingWheel.h:87-107 | The same for a deletion. |
| TimingWheel.TimeWheel.VisitTimer | timer/TimingWheel.h:112-139 | One round of the loop changes the pointers of the heap as the specification changes its memory. |
| TimingWheel.TimeWheel.Tick | timer/TimingWheel.h:109-142 | The callbacks are those of the due timers in order. The lists are right afterwards, or, as written through a spoiling slot, a timer that is not due has lost the link back to it and no list linked both ways begins at the slot; what the slot leads to is said exactly. |
| TimingWheel.SpoilsSlot | timer/TimingWheel.h:130-133 | The condition found along the traversal is the one that can be read off the slot before the tick. |
| TimingWheel.StayersReached | timer/TimingWheel.h:130-136 | In the heap, next leads from the slot through exactly the timers that stay, among them due ones that come right behind another due one behind a kept one. |
| HeapOrder.PercolateOrders | timer/time_heap.h:149-165 | Sifting down makes a heap of a subtree whose halves are heaps, and keeps every timer. |
| HeapOrder.BuiltIsHeap | timer/time_heap.h:57-81 | The array constructor makes a heap of any array, with the same timers. |
| HeapOrder.AddedKeeps | timer/time_heap.h:92-110 | add_timer keeps heap order and adds exactly the timer. |
| HeapOrder.PoppedKeeps | timer/time_heap.h:123-130 | pop_timer keeps heap order and removes exactly the top. |
| HeapOrder.TopIsFirst | timer/time_heap.h:117-122 | The top expires no later than any other timer. |
| HeapOrder.DrainKeeps | timer/time_heap.h:117-130 | Draining by top and pop_timer yields every timer exactly once. |
| HeapOrder.DrainSorts | timer/time_heap.h:117-130 | It yields them in nondecreasing order of expiry. |
| HeapOrder.RunKeeps | timer/time_heap.h:92-130 | Over any run of additions and pops, the popped timers and those still there are the first ones and the added ones, with multiplicity. |
| HeapOrder.PercolateAsWritten | timer/time_heap.h:149-165 | As written, sifting keeps the timers if and only if the timer does not sink; otherwise one of distinct timers is lost. |
| HeapOrder.BuiltAsWritten | timer/time_heap.h:57-81 | As written, the array constructor keeps distinct timers if and only if the array is a heap already. |
| HeapOrder.PoppedAsWritten | timer/time_heap.h:123-130 | As written, pop_timer keeps the other timers if and only if the last one does not expire after a child of the root. |
| HeapOrder.StepsBound | timer/time_heap.h:149-165 | From place h, two to the number of steps times h + 1 is at most the number of timers. |
| TimeHeap.TimeHeap.FromArray | timer/time_heap.h:57-81 | The array after construction is the specified one; repaired, a heap. |
| TimeHeap.TimeHeap.PercolateDown | timer/time_heap.h:149-165 | The loop over the array equals the specification in both versions, in at most log2(cur_size) steps. |
| TimeHeap.TimeHeap.AddTimer | timer/time_heap.h:92-110 | The array after an addition is the specified heap, and size, capacity and copies grow as the cost bound assumes. |
| TimeHeap.TimeHeap.Resize | timer/time_heap.h:167-181 | The capacity doubles, the timers stay, and one pointer is copied for each slot gained. |
| TimeHeap.TimeHeap.PopTimer | timer/time_heap.h:123-130 | The array after a pop, in both versions; repaired, a heap. |
| TimeHeap.TimeHeap.Top | timer/time_heap.h:117-122 | A timer that expires first, or null exactly if the heap is empty. |
| HeapOrder.CopiesAreFew | timer/time_heap.h:97-99 | Over any run from the empty heap with any capacity above 0, n additions copy fewer than 2n pointers whatever is popped, and the capacity is at least cur_size. |
| ThreadPool.Accounts | process_thread_pool/threadpool.h:81-141 | In every run: queue length plus interrupted waits is the semaphore plus the threads in the two gaps plus empty pops; accepted requests are those taken, in order, and then the queue; each one taken has been processed or is being processed by one worker; the queue is bounded. |
| ThreadPool.ProcessedInOrder | process_thread_pool/threadpool.h:81-141 | In every run the k-th successful pop leaves its worker processing the k-th accepted request, and append accepts exactly if there is room. |
| ThreadPool.AllTaken | process_thread_pool/threadpool.h:122-141 | From every state that keeps the accounts, also after interrupted waits, steps of the threads alone take every accepted request. |
| ThreadPool.AllProcessed | process_thread_pool/threadpool.h:122-141 | And process it: in the end the processed requests are the accepted ones, each once. |
| ThreadPool.StepKeeps | process_thread_pool/threadpool.h:81-141 | Every step of every thread keeps this. |
| ThreadPool.NeverEmpty | process_thread_pool/threadpool.h:124-131 | Without interrupted waits, a worker behind the semaphore finds a request: the empty branch is unreachable. |
| ThreadPool.EmptyOnlyAfterInterrupts | process_thread_pool/threadpool.h:124-131 | In general it is taken at most as often as a wait was interrupted. |
| ThreadPool.NoneForgotten | process_thread_pool/threadpool.h:92-95 | When no thread is in a gap, the semaphore lets a worker through for every queued request. |
| ThreadPool.InterruptedWaitFindsNothing | process_thread_pool/threadpool.h:124-131 | One interrupted wait does reach the empty branch. |
| EventOwnership.OneOwner | WXP_websever.cpp:293-312 | In every run in which connections are not closed in flight, each open one that was not dropped is in exactly one of armed, with the event loop, queued, with a worker; no two workers have the same. |
| EventOwnership.DroppedExactly | process_thread_pool/threadpool.h:98-110 | In every run a connection is dropped if and only if append_p met a full queue with it and it has not been closed since. |
| EventOwnership.NoneDropped | WXP_websever.cpp:293-312 | While append_p never meets a full queue, each open connection is in exactly one place. |
| EventOwnership.NeverStuck | http_conn/http_conn.cpp:737-755 | From every state with each open connection in one place, steps of the event loop and the workers alone bring each that was not dropped back to where its next event is delivered. |
| EventOwnership.ArmedAgain | http_conn/http_conn.cpp:743-754 | After a worker is done with an open connection, and after the event loop has armed one again, its next event can be delivered. |
| EventOwnership.TakenInOrder | process_thread_pool/threadpool.h:132-139 | In every run workers take connections in the order in which they were queued. |
| EventOwnership.BrokenExactlyByReuse | http_conn/http_conn.cpp:79-89 | A step breaks "at most one place" if and only if it accepts a descriptor whose former connection is in flight. |
| EventOwnership.OneAsLongAsNotReused | WXP_websever.cpp:264-358 | For every run, closes by the timer and by workers included: every point of it has every connection in at most one place if and only if no accept reuses a descriptor in flight. |
| EventOwnership.OwnedStep | WXP_websever.cpp:293-358 | Every step but a close in flight keeps "exactly one place". |
| EventOwnership.OneWorkerEach | http_conn/http_conn.cpp:737-755 | At most one place means: no two workers in process() for one connection, no connection twice in the queue. |
| EventOwnership.ClosedInFlight | timer/lst_timer.h:144 | From every state with a queued connection, a close by the timer can be continued so that its descriptor is queued twice. |
| LogRing.PushAppends | log/log_queue.h:124-144 | With indices that start at -1 and wrap, push makes the item the last, unless the ring is full. |
| LogRing.PopTakesFirst | log/log_queue.h:160-162 | pop takes the item that was pushed first. |
| LogRing.BackIsLast | log/log_queue.h:87-98 | back reads the item that was pushed last. |
| LogQueue.LogQueue.Push | log/log_queue.h:124-144 | The array and indices after a push; it succeeds exactly if the ring is not full. |
| LogQueue.LogQueue.Take | log/log_queue.h:160-164 | The array and indices after a pop. |
| LogQueue.LogQueue.Back | log/log_queue.h:87-98 | The last item, or failure exactly if the ring is empty. |
| LogQueue.LogQueue.Full | log/log_queue.h:49-60 | True exactly if the contents fill the ring. |
| LogQueue.LogQueue.Clear | log/log_queue.h:41-47 | The ring is empty and as at first. |
| LogQueue.FirstInFirstOut | log/log_queue.h:124-196 | In every run of any number of threads, with spurious wake-ups and timeouts: what was popped is a prefix of what was pushed, the ring holds the rest, and nobody sleeps unnotified while there is an item. |
| LogQueue.StepKeeps | log/log_queue.h:124-196 | Every section under the mutex keeps this. |
| LogQueue.PopGets | log/log_queue.h:147-196 | A thread that calls pop, or is woken in it, returns the item that is next in order if there is one; on an empty ring the untimed form sleeps again and the timed one returns with nothing. |
| LogQueue.PushWakes | log/log_queue.h:124-144 | Push accepts its item exactly if the ring has room, and wakes every sleeper either way. |
| LogQueue.HandedOver | log/log_queue.h:124-196 | A waiter of either form gets the item of a push after which it is the first to resume. |
| LogQueue.ItemStolen | log/log_queue.h:147-196 | If another thread takes the item first, a notified waiter of the timed form comes back with nothing, and one of the untimed form sleeps again. |
| LogQueue.SpuriousWakeUp | log/log_queue.h:150-196 | A wake-up without an item changes nothing, except that the timed form comes back with nothing; so does a wait that fails. |
| LogQueue.Cleared | log/log_queue.h:41-47 | After clear the next pop goes to sleep, and nothing that was in the ring is ever popped. |
| AsyncLog.LinesConserved | log/log.cpp:142-149 | In every run each line is in exactly one of a producer's hand, the ring, the consumer's hand, the file, or discarded; the lines of the file that came through the queue stand there in the order in which they went in. |
| AsyncLog.QueueIsFile | log/log.h:49-60 | When no producer writes for itself, the file is what was queued, in that order, up to what is on its way. |
| AsyncLog.Flushed | log/log.h:49-60 | From every state the consumer alone brings everything that was queued into the file, in that order. |
| AsyncLog.Logged | log/log.cpp:130-149 | A line that is logged while nobody else moves ends as the last one queued if the logger is asynchronous and the ring has room, and otherwise as the last one of the file. |
| AsyncLog.FileGrows | log/log.h:57 | Over every run the file is only appended to. |
| AsyncLog.Routed | log/log.cpp:142 | A line goes to the queue if and only if the logger is asynchronous and the ring has room. |
| AsyncLog.Synchronous | log/log.cpp:142-149 | The synchronous logger queues and discards nothing, and with one producer its file is what was logged, in that order. |
| AsyncLog.StepConserves | log/log.h:49-60 | Every step of producers and consumer keeps this. |
| AsyncLog.RefusedOnlyIfFilled | log/log.cpp:142-143 | In every run a push is refused only if, since full(), other producers have pushed as many lines as there was room for, at least one. |
| AsyncLog.AloneLosesNone | log/log.cpp:142-149 | With one producer no line is discarded. |
| AsyncLog.SecondIsLost | log/log.cpp:142-143 | From every state in which two producers have passed the test for one free slot, the second loses its line. |
| ConnectionPool.Conserved | conn_mysql/sql_connection_pool.cpp:65-102 | In every run free connections and those in use are the original ones, and outside the lock the counters are right and add up to MaxConn. |
| ConnectionPool.NoneShared | conn_mysql/sql_connection_pool.cpp:138-147 | A connection that is in the pool once is never with two threads, never with a thread and in the list, and never twice in the list. |
| ConnectionPool.NeverEmpty | conn_mysql/sql_connection_pool.cpp:72-77 | Without interrupted waits the pop finds a connection. |
| ConnectionPool.CheckedIfAny | conn_mysql/sql_connection_pool.cpp:69-72 | A thread goes on to the wait if and only if it sees a connection in the list. |
| ConnectionPool.RoundTrip | conn_mysql/sql_connection_pool.cpp:65-102 | Getting a connection and giving it back restores the pool, both counters, the semaphore and the lock, but for the order of the list. |
| ConnectionPool.StepKeepsSem | conn_mysql/sql_connection_pool.cpp:72-100 | List length plus interrupted waits is the semaphore plus the threads between wait and pop and between push and post. |
| ConnectionPool.StepKeepsCounts | conn_mysql/sql_connection_pool.cpp:74-98 | FreeConn and CurConn are right up to the statements that the thread inside the lock has still to do. |
| ConnectionPool.StrayMeetsEmptyList | conn_mysql/sql_connection_pool.cpp:69-77 | An interrupted wait leads a thread that saw a connection to the pop of an empty list. |
| ConnectionPool.StrayReached | conn_mysql/sql_connection_pool.cpp:69-77 | A run with one connection and two threads that ends there. |
| Dispatch.ChoiceIsFirst | process_thread_pool/processpool.h:318-332 | The selection finds the first live child from the counter on, going round, and none exactly if all are dead. |
| Dispatch.ProcessPool.Dispatch | process_thread_pool/processpool.h:318-335 | The do-while loop terminates with that choice; the counter moves behind it; the parent stops exactly if there is none. |
| Dispatch.ProcessPool.Reap | process_thread_pool/processpool.h:353-380 | Exactly the reported children are marked dead, and the parent stops exactly if none is left. |
| Dispatch.NoneStarves | process_thread_pool/processpool.h:318-335 | Whatever others die, a child that stays alive is chosen within as many connections as there are places. |
| Dispatch.ChosenInTime | process_thread_pool/processpool.h:318-335 | And before the connections outnumber the places between the counter and it. |
| Dispatch.EachOnce | process_thread_pool/processpool.h:318-335 | As many connections as there are live children reach each of them exactly once. |
| ChatTables.IndexStaysRight | ET_LT/chat_server2.cpp:239-302 | In every run of joins and exits the index leads from each process id in the table to its place, and the ids are distinct. |
| ChatTables.LeaveKeeps | ET_LT/chat_server2.cpp:290-303 | Replacing a user who leaves by the last one keeps the index and exactly the other users. |
| ChatTables.JoinKeeps | ET_LT/chat_server2.cpp:232-266 | A join keeps the index, and adds a user exactly if there is room and fork succeeds. |
| ChatTables.EntryClearedUnlessLast | ET_LT/chat_server2.cpp:292-302 | The entry of the dead process is cleared if and only if it did not have the last place. |
| ChatTables.ChatServer.Accept | ET_LT/chat_server2.cpp:232-266 | The arrays after a join. |
| ChatTables.ChatServer.Waited | ET_LT/chat_server2.cpp:290-303 | The arrays after an exit; the branch for an entry out of range is unreachable. |

## Left out

- HttpConn.HttpConn.ParseContent: a NUL that would be stored outside the buffer, or with a negative length, is reported and not stored.
- TimeHeap.TimeHeap.FromArray: only for a size that fits the capacity; the source returns with an array that does not exist otherwise.
- TimeHeap.TimeHeap.AddTimer: only for a capacity above 0; with 0 the source doubles nothing and writes behind the array.
- HttpResponse.Framing: only for files whose size is an int; a longer one is announced with its size cut to 32 bits.
- HttpResponder.Responder.ProcessWrite: only for such files; the count of bytes to send would be cut as well.
- ChatTables.JoinKeeps: only for process ids below the length of the index, which is 65535; the source stores others behind the array.
- ChatTables.ChatServer.Accept: the same.
- IdleTimeout.AsWrittenStep: a timer that was cut off is out of the model; in the source, activity of its connection relinks it through the pointers it still has.
- HttpFields.ClientUnderstood: only fields whose number fits an int; what other numbers are read as is HttpFields.NumberRead.
- ThreadPool, EventOwnership, ConnectionPool, AsyncLog and the monitor of LogQueue are step relations on values, not objects; a mutex is modelled by what runs under it being one step.
- The wait inside `pop` is a step of the monitor, not a method; its time limit is whatever the environment decides.
- `m_host`, the Host header and the log lines: nothing that is modelled depends on them.
- `do_request`, the login and registration pages, MySQL, stat and mmap: the parser's outcome is what do_request is called with, and the file is a value.
- Sockets, epoll, signals, fork, waitpid, clocks: their results are parameters and events.
- Lengths beyond the range of a 32-bit int in the sums of http_conn/http_conn.cpp:339 and 715.
- Reactor mode (WXP_websever.cpp:269-292, 318-340): nothing sets the flag that its loop waits for.
- `m_user_count`: a worker's close and the timer's callback both decrement it.
- Allocation, `delete` and destructors: a timer that was removed stays an object that nothing leads to.
- `time_heap::tick` (its loop never runs), `log_queue::front` (it reads the slot popped last), the running of a child of the process pool (its index is never assigned), and the shared-memory slots of the chat server.
- Changing the expiry time of a timer that is in the heap: nothing in the source does it, and the model fixes it when the timer is made.
- Log files by day and by number of lines (log/log.cpp:93-121), and the formatting of a line.
