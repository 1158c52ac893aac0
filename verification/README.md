# Proofs about the containers, the HTTP server and the logger

A Dafny model of the stateful core of the repository, with proofs. Each file
follows one source file. Code that changes fields, links or buffers in place is
a class whose methods do the same; several threads on shared data are a state
machine whose steps are the critical sections. Check everything with
`dafny verify dfyconfig.toml`.

| file | source | model |
|---|---|---|
| `RedBlackTree.dfy` | `algorithm/rbtree.h` | nodes with parent links, rotations, both repair loops, searches, walks |
| `TimerWheel.dfy` | `epoll/timerwheel.h` | 60 doubly linked lists; the service it implements is `TimerSpec` |
| `HttpParser.dfy`, `HttpRoundTrip.dfy`, `HttpNoBody.dfy`, `HttpBody.dfy`, `HttpText.dfy`, `HttpAnswers.dfy`, `HttpConn.dfy` | `epoll/http_conn.cpp` | the parser as functions of its state; what it makes of a request and of its pieces, without and with a body; what its library calls and header lines mean, and what it answers to other lines; the class that works in place on the buffer |
| `ThreadPool.dfy` | `epoll/threadpool.h` | appenders and workers, one step per lock, unlock, wait, post, test, push and pop |
| `BlockQueue.dfy`, `Log.dfy` | `log/block_queue.h`, `log/log.cpp`, `log/log.h` | the ring, its waiting protocol, and the loggers and the writer on top |
| `ProcessPool.dfy` | `epoll/processpoolserver.h` | the parent's table of children and its two event handlers |
| `MemoryDetect.dfy` | `memoryleak/memorydetect.cc` | the circular list of live blocks, its totals and its reports; several threads on the total |
| `Modular.dfy`, `Options.dfy`, `Runs.dfy` | | indices that wrap around, optional values, runs of a protocol |

How to read the contracts:

- **Red-black tree.** `Valid()` is stated node by node with ghost fields: `pos`
  is the index of a node in the in-order sequence `Order`, `[lo, hi)` is the
  stretch of its subtree, `bh` is its black height. `ValidIsRedBlack` shows that
  this is the recursive textbook notion, in-order keys and height bound included.
  Keys may repeat. `Balanced(p, x)` and `Coloured(e, f)` name the one place
  where a repair loop may still be wrong.
- **Timing wheel.** `Abs()` maps each live timer to
  `rotation * N + (time_slot - cur_slot) mod N`. `History` is the list of
  operations so far, and `Running()` says that `Abs()` is what the abstract
  service makes of this history.
- **HTTP.** `Conn` is the state of the parser; each method of `HttpConn` ends in
  exactly the state, and with the result, that a function of `HttpSpec` gives.
  The lemmas are about those functions.
- **Queues and threads.** A run is a sequence of states, or the result of
  executing a list of steps; the lemmas hold for every run, with any number of
  threads.

Some promises do not hold of the code in general. Each of them comes with an
example and with the exact condition:

| promise | example | holds exactly when |
|---|---|---|
| `successor` gives the next larger key, `predecessor` the next smaller one (comments at algorithm/rbtree.h:290 and 313) | `EqualNeighbours` | no equal key stands behind, or in front of, the node: `SuccessorIsLarger`, `PredecessorIsSmaller`; for all nodes of a tree: no key is repeated, `AlwaysLargerIffKeysDiffer` |
| a request with a body has the same result however its bytes are split | `SplitBodyIsMissed` | the body is incomplete anyway, or some piece brings enough bytes beyond those scanned before: `BodyMaySplitIff`; with nothing behind the body: `RequestWithBody` |
| a request with a body is recognised when its body is there, and not before | `HugeLength`, `NegativeLength` | `RequestAndMore`, for every length; in one piece, and where the sum of `parse_content` does not overflow: when there are n bytes, `EnoughIsOnce` |
| when all threads of the pool rest, every accepted request is finished | `StoppedPoolForgets` | the semaphore is at zero: `NothingIsForgotten` |
| no log line is lost | `TwoLoggersCanLose` | at most one thread logs, or the queue is not used: `NothingLostIffOneLogger` |
| the file keeps the order of the lines | `FullQueueIsOvertaken`, `TwoLoggersCanSwap` | at most one thread logs and the queue is not used, or nobody logs: `AlwaysOrderedIff`; for a single run of one thread: `OrderedIffNotOvertaken` |
| the total of the allocation tracker is the sum of the sizes | `TwoThreadsCanLose` | at most one thread allocates and frees: `TotalIsRightIffOneThread` |

## Model

| member | source | states |
|---|---|---|
| RedBlackTree.RBTree.LeftRotate | algorithm/rbtree.h:350-380 | the complete new state of the links around the rotated edge, on any nodes |
| RedBlackTree.RBTree.RotateLeft | algorithm/rbtree.h:350-380 | a left rotation keeps every parent link matched and the in-order sequence unchanged |
| RedBlackTree.RBTree.RightRotate | algorithm/rbtree.h:396-427 | the mirror image of LeftRotate |
| RedBlackTree.RBTree.RotateRight | algorithm/rbtree.h:396-427 | the mirror image of RotateLeft |
| RedBlackTree.RBTree.InsertCase1 | algorithm/rbtree.h:452-463 | with a red uncle, recolouring moves the only possible red-red pair up to the grandparent and keeps all black heights |
| RedBlackTree.RBTree.InsertCase2Left | algorithm/rbtree.h:465-473 | with a black uncle and an inner node, a rotation turns it into the outer case |
| RedBlackTree.RBTree.InsertCase2Right | algorithm/rbtree.h:495-503 | the mirror image |
| RedBlackTree.RBTree.InsertCase3Left | algorithm/rbtree.h:475-478 | the outer case: one rotation and two colours remove the red-red pair |
| RedBlackTree.RBTree.InsertCase3Right | algorithm/rbtree.h:505-508 | the mirror image |
| RedBlackTree.RBTree.InsertFixUp | algorithm/rbtree.h:440-514 | from a tree whose only fault is a red node under a red parent, or a red root, the loop ends in a faultless tree after at most two rotations, whatever the size, and at most log2(n+1) + 1 iterations |
| RedBlackTree.RBTree.GrandParentExists | algorithm/rbtree.h:446-448 | the grandparent that the repair reads is there |
| RedBlackTree.RBTree.FindPlace | algorithm/rbtree.h:526-537 | the descent ends at the one free link behind all keys not larger and before all larger ones; its length s satisfies 2^s <= (n+1)^2 |
| RedBlackTree.RBTree.HangUnder | algorithm/rbtree.h:539-551 | the new red leaf is in exactly that link, and nothing else moves |
| RedBlackTree.RBTree.InsertNode | algorithm/rbtree.h:524-555 | the node is added to the in-order sequence behind every key not larger and before every larger one, the tree is valid again, and at most two rotations are made |
| RedBlackTree.RBTree.Insert | algorithm/rbtree.h:565-574 | one more occurrence of the key, repeated keys included, in a valid tree |
| RedBlackTree.RBTree.SiblingExists | algorithm/rbtree.h:591-595 | the sibling that the repair after a removal reads is there |
| RedBlackTree.RBTree.RemoveCase1Left | algorithm/rbtree.h:596-603 | with a red sibling, a rotation gives a black one and leaves the missing black node where it was, below a red parent |
| RedBlackTree.RBTree.RemoveCase1Right | algorithm/rbtree.h:634-641 | the mirror image |
| RedBlackTree.RBTree.RemoveCase2 | algorithm/rbtree.h:604-611 | with a black sibling without red children, recolouring moves the missing black node up to the parent |
| RedBlackTree.RBTree.RemoveCase3Left | algorithm/rbtree.h:614-621 | with the inner child red only, a rotation makes the outer one red |
| RedBlackTree.RBTree.RemoveCase3Right | algorithm/rbtree.h:652-659 | the mirror image |
| RedBlackTree.RBTree.RemoveCase4Left | algorithm/rbtree.h:622-628 | with the outer child red, a rotation supplies the missing black node |
| RedBlackTree.RBTree.RemoveCase4Right | algorithm/rbtree.h:660-666 | the mirror image |
| RedBlackTree.RBTree.RemoveEndLeft | algorithm/rbtree.h:613-629 | with a black sibling that has a red child, at most two rotations end the repair |
| RedBlackTree.RBTree.RemoveEndRight | algorithm/rbtree.h:651-667 | the mirror image |
| RedBlackTree.RBTree.RemoveFixUp | algorithm/rbtree.h:587-672 | from a tree in which one subtree is one black node short the loop ends in a faultless tree after at most three rotations, whatever the size, and at most log2(n+1) + 1 iterations |
| RedBlackTree.RBTree.SpliceOut | algorithm/rbtree.h:746-767 | a node with at most one child is replaced by that child, and nothing else moves |
| RedBlackTree.RBTree.FirstToTheRight | algorithm/rbtree.h:692-697 | the replacement found is the next node in order |
| RedBlackTree.RBTree.Replace | algorithm/rbtree.h:699-737 | the next node in order takes over place, colour and links of the removed one |
| RedBlackTree.RBTree.PutInPlace | algorithm/rbtree.h:699-737 | after that the sequence lacks exactly the removed node, and the tree is faultless or one black node short at the place that is repaired next |
| RedBlackTree.RBTree.RemoveWithTwoChildren | algorithm/rbtree.h:688-744 | exactly the node is gone from the in-order sequence, and the tree is valid |
| RedBlackTree.RBTree.RemoveWithOneChild | algorithm/rbtree.h:746-771 | the same for a node with at most one child |
| RedBlackTree.RBTree.RemoveNode | algorithm/rbtree.h:682-772 | the same for any node, with at most three rotations |
| RedBlackTree.RBTree.Remove | algorithm/rbtree.h:781-788 | one occurrence of the key is gone from a valid tree; if there is none, no field of any node changes |
| RedBlackTree.RBTree.SearchIsComplete | algorithm/rbtree.h:201-210 | the recursive search finds nothing if and only if the key is not in the tree, although rotations may have moved equal keys to the left |
| RedBlackTree.RBTree.Search | algorithm/rbtree.h:201-210 | a node found has the key and lies in the subtree searched; otherwise no node of that subtree has the key |
| RedBlackTree.RBTree.IterativeSearch | algorithm/rbtree.h:222-233 | the loop finds the very node that the recursion finds; from the root it takes s steps with 2^s <= (n+1)^2 |
| RedBlackTree.RBTree.SizeBound | algorithm/rbtree.h:524-555 | a subtree of black height b holds at least 2^b - 1 nodes |
| RedBlackTree.RBTree.DepthBound | algorithm/rbtree.h:222-233 | no path is longer than 2 log2(n+1) |
| RedBlackTree.RBTree.Minimum | algorithm/rbtree.h:245-253 | the first node in order of the subtree |
| RedBlackTree.RBTree.Maximum | algorithm/rbtree.h:269-277 | the last node in order of the subtree |
| RedBlackTree.RBTree.Successor | algorithm/rbtree.h:293-310 | the next node in order, NULL after the last, in every tree with rotated parent links |
| RedBlackTree.RBTree.Predecessor | algorithm/rbtree.h:316-333 | the previous node in order, NULL before the first |
| RedBlackTree.RBTree.WalkUp | algorithm/rbtree.h:293-310 | calling successor again and again visits everything behind a node, in order, and then reaches NULL |
| RedBlackTree.RBTree.WalkDown | algorithm/rbtree.h:316-333 | calling predecessor again and again visits everything before a node, in reverse |
| RedBlackTree.RBTree.WalkBothWays | algorithm/rbtree.h:245-333 | from the minimum up, every node once in order; from the maximum down, the reverse |
| RedBlackTree.RBTree.ThereAndBack | algorithm/rbtree.h:293-333 | predecessor leads back from where successor has led, and the other way round |
| RedBlackTree.RBTree.SuccessorIsLarger | algorithm/rbtree.h:290-310 | the node behind x has the least key above x's, or is missing and there is none, if and only if no equal key stands behind x |
| RedBlackTree.RBTree.PredecessorIsSmaller | algorithm/rbtree.h:313-333 | the same for the greatest key below and the equal keys in front |
| RedBlackTree.RBTree.AlwaysLargerIffKeysDiffer | algorithm/rbtree.h:290-333 | in a tree, successor always gives the next larger key if and only if no key is repeated, and so does predecessor the next smaller one |
| RedBlackTree.EqualNeighbours | algorithm/rbtree.h:290-333 | an example in which successor and predecessor give an equal key |
| RedBlackTree.RBTree.ValidIsRedBlack | algorithm/rbtree.h:440-788 | what every operation keeps is a red-black tree: root black, no red node with a red child, equal black heights, sorted in-order keys, height at most 2 log2(n+1) |
| RedBlackTree.RBTree.SubtreeIsRedBlack | algorithm/rbtree.h:440-788 | the same for every subtree, apart from the colour of its root |
| RedBlackTree.Replay | algorithm/main.cpp:16-64 | any run of insertions and removals from the empty tree ends in a valid tree that holds the multiset of keys that is to be expected |
| TimerWheel.Timer.Init | epoll/timerwheel.h:39-56 | rotation and slot encode the timeout in seconds, and one tick for a timeout of zero or less, as seen from the current slot |
| TimerWheel.TimeWheel.constructor | epoll/timerwheel.h:62-68 | an empty wheel is the empty service |
| TimerWheel.TimeWheel.PushFront | epoll/timerwheel.h:95-105 | the new timer is in front of its slot's list, and all other links are as before |
| TimerWheel.TimeWheel.Unlink | epoll/timerwheel.h:118-135 | the timer is out of its list, head or not, and its neighbours are joined |
| TimerWheel.TimeWheel.AtFrontKeeps | epoll/timerwheel.h:95-105 | after that the slots are again disjoint null-terminated lists with matching links, and every timer is in the list of its own slot |
| TimerWheel.TimeWheel.UnlinkedKeeps | epoll/timerwheel.h:118-135 | the same after a removal |
| TimerWheel.TimeWheel.AddTimer | epoll/timerwheel.h:83-108 | a negative timeout gives NULL; otherwise adding is an insertion into the map of remaining ticks |
| TimerWheel.TimeWheel.DelTimer | epoll/timerwheel.h:109-136 | deleting a live timer takes it out of the map, and NULL changes nothing |
| TimerWheel.TimeWheel.AdjustTimer | epoll/timerwheel.h:182-228 | adjusting is an update of the map |
| TimerWheel.TimeWheel.TickDistance | epoll/timerwheel.h:179 | advancing the current slot brings every other slot nearer by one, and sends its own to the far end |
| TimerWheel.TimeWheel.WalkSlot | epoll/timerwheel.h:140-178 | the walk that deletes while it goes calls back exactly the timers at zero and takes a round from the others of the slot |
| TimerWheel.TimeWheel.TurnWheel | epoll/timerwheel.h:138-180 | a tick fires exactly the timers at zero, once each, and lowers every other one by one |
| TimerWheel.TimeWheel.Tick | epoll/timerwheel.h:138-180 | the callbacks of a tick are exactly those that the whole history of the wheel asks for, one each |
| TimerSpec.FiresOnSchedule | epoll/timerwheel.h:138-228 | a timer left alone since it was set fires at tick number max(1, timeout / TI) + 1 after that, not earlier, not later and not twice |
| TimerSpec.FiresAfterSeconds | epoll/timerwheel.h:10-56 | in seconds: timeout ticks pass before the one that fires the timer, and one tick for a timeout of zero |
| TimerSpec.FiresIffSetLongAgo | epoll/timerwheel.h:138-228 | over any run, a timer fires at a tick if and only if its last add or adjust is that many seconds ago and it was not deleted since |
| TimerSpec.CountsDown | epoll/timerwheel.h:138-180 | an untouched timer loses one per tick and is gone after the tick that finds it at zero |
| HttpConnection.HttpConn.constructor | epoll/http_conn.cpp:76-93 | init() gives the initial state of the parser |
| HttpConnection.HttpConn.Read | epoll/http_conn.cpp:131-158 | whatever parts recv hands over, the bytes are appended in order; it succeeds if and only if there was room at the beginning, they fit, and the socket would block behind them |
| HttpConnection.HttpConn.ParseLine | epoll/http_conn.cpp:95-129 | the loop in place agrees with the scanner on values, the erased line ends included |
| HttpConnection.HttpConn.ParseTarget | epoll/http_conn.cpp:179-204 | pointer steps and erasures find and cut out target and version |
| HttpConnection.HttpConn.CheckTarget | epoll/http_conn.cpp:192-204 | "http://" and the authority are skipped, and the path must start with a slash |
| HttpConnection.HttpConn.ParseRequestLine | epoll/http_conn.cpp:160-205 | pointers and erasures agree with the parts of the line as a value, on every branch |
| HttpConnection.HttpConn.ParseHeaders | epoll/http_conn.cpp:207-252 | the same for header lines |
| HttpConnection.HttpConn.ParseContent | epoll/http_conn.cpp:254-263 | agrees with the function on values, the overflow of the sum included, and writes the end mark at its place in the buffer, received or not, and nothing else |
| HttpConnection.HttpConn.ProcessRead | epoll/http_conn.cpp:265-320 | the loop over the two state machines terminates and agrees with the parser on values |
| HttpConnection.HttpConn.Serve | epoll/http_conn.cpp:532-539 | reading and parsing piece after piece gives what feeding the pieces to the parser gives, as long as each read finds room and its piece fits |
| HttpConnection.ShortPiecesFit | epoll/http_conn.cpp:131-158 | pieces that leave some room, and pieces that are not empty and fill it, are such |
| HttpSplitting.ScannerCutsLines | epoll/http_conn.cpp:95-129 | no line end remains before the scanner; a finished line is the next CRLF-terminated segment; the LF branch never succeeds |
| HttpSplitting.ScannerAnswers | epoll/http_conn.cpp:95-129 | the answer and the new state of the scanner, by the first line end behind its position |
| HttpSplitting.BadLineStays | epoll/http_conn.cpp:95-129 | a bad line stays bad whatever arrives later |
| HttpSplitting.RunStaysClean | epoll/http_conn.cpp:265-320 | a whole call of process_read leaves no line end before the scanner |
| HttpSplitting.ParseLineResumes | epoll/http_conn.cpp:95-129 | a finished line does not depend on later bytes, and an unfinished one is taken up where the scanner stopped |
| HttpSplitting.RequestLineExtends | epoll/http_conn.cpp:160-205 | parsing a finished request line does not depend on later bytes |
| HttpSplitting.HeadersExtend | epoll/http_conn.cpp:207-252 | nor does parsing a header line |
| HttpSplitting.LoopResumes | epoll/http_conn.cpp:265-320 | parsing, and parsing again with more bytes, is parsing them at once, as long as no body is involved |
| HttpSplitting.SplittingIsIrrelevant | epoll/http_conn.cpp:95-320 | as long as the parser does not get to a body, every splitting into reads gives the result and the whole state that one read gives |
| HttpNoBody.StaysOutOfBody | epoll/http_conn.cpp:207-252 | the parser does not get to a body if no line before the first empty one announces a length other than zero |
| HttpNoBody.PlainStreamsMaySplit | epoll/http_conn.cpp:95-320 | so for any bytes whatever without such a line, malformed and truncated ones included, every splitting into reads gives what one read gives |
| HttpRoundTrip.RequestLineRoundTrip | epoll/http_conn.cpp:160-205 | parsing a printed request line gives back target and version, with any blanks between the parts and with "http://authority" in front or not |
| HttpRoundTrip.AcceptedLine | epoll/http_conn.cpp:160-205 | conversely, every accepted line is such a line |
| HttpRoundTrip.NextLine | epoll/http_conn.cpp:95-129 | the scanner cuts off exactly the next line and leaves it as a string |
| HttpRoundTrip.HeadersAreRead | epoll/http_conn.cpp:207-252 | any number of header lines are read in order; the last Host and Content-Length count |
| HttpRoundTrip.BlankLine | epoll/http_conn.cpp:207-223 | the blank line ends a request without a body, and otherwise leads to the body |
| HttpRoundTrip.RequestRoundTrip | epoll/http_conn.cpp:95-320 | a whole printed request is accepted, and url, version, host, linger and length are the printed ones; what follows it is not consumed |
| HttpRoundTrip.RequestInPieces | epoll/http_conn.cpp:95-320 | the same for every splitting of its bytes into reads |
| HttpText.CaseIsIgnored | epoll/http_conn.cpp:170-240 | the comparisons ignore the case of letters and nothing else |
| HttpText.AtoiReads | epoll/http_conn.cpp:237 | white space, a sign, decimal digits and anything behind them give the number, kept within a long and cut to an int |
| HttpText.AtoiOfDecimal | epoll/http_conn.cpp:237 | a printed int is read back |
| HttpText.ConnectionHeader | epoll/http_conn.cpp:224-232 | a Connection line sets linger if and only if its value is keep-alive |
| HttpText.LengthHeader | epoll/http_conn.cpp:233-238 | a Content-Length line sets the length |
| HttpText.HostHeader | epoll/http_conn.cpp:239-244 | a Host line sets the host |
| HttpText.OtherHeader | epoll/http_conn.cpp:245-248 | all other lines are passed over |
| HttpText.PrintedLength | epoll/http_conn.cpp:207-252 | a length printed as the last header line is the length that counts |
| HttpAnswers.FirstLineDecides | epoll/http_conn.cpp:160-205 | the answer is BAD_REQUEST if and only if the first line is not an acceptable request line, whatever follows it |
| HttpAnswers.OnlyRequestLinesAreBad | epoll/http_conn.cpp:265-320 | no header line and no body is answered with BAD_REQUEST |
| HttpAnswers.BadInPieces | epoll/http_conn.cpp:265-320 | the answer BAD_REQUEST does not depend on the splitting of the bytes, with or without a body |
| HttpAnswers.FirstLineInPieces | epoll/http_conn.cpp:95-320 | the first line decides in any pieces |
| HttpAnswers.NoAnswerWithoutLine | epoll/http_conn.cpp:265-320 | without a finished line there is no answer |
| HttpAnswers.BadLineIsNeverAnswered | epoll/http_conn.cpp:95-320 | a line with a bad end is never answered, whatever comes later |
| HttpAnswers.ExampleIsRead | epoll/http_conn.cpp:95-320 | a request given byte by byte is recognised with its parts |
| HttpBody.OneLine | epoll/http_conn.cpp:95-129 | what has been erased before does not matter to the scanner's next line |
| HttpBody.ScansOn | epoll/http_conn.cpp:271-309 | an incomplete body is scanned on to the next line end that is not CRLF, unless the test behind one of the lines finds enough |
| HttpBody.OnePiece | epoll/http_conn.cpp:254-320 | a piece completes the request if and only if the bytes are then enough, as seen from where the scanner stood |
| HttpBody.BodyInPieces | epoll/http_conn.cpp:254-320 | the same over any pieces, whatever follows the body |
| HttpBody.PartOfHead | epoll/http_conn.cpp:265-320 | no proper part of a head leads to a result or to the body |
| HttpBody.HeadInPieces | epoll/http_conn.cpp:265-320 | in whatever pieces the head comes, it is as if it had come at once with what the last of them brings |
| HttpBody.RequestAndMore | epoll/http_conn.cpp:95-320 | for every head that announces a length other than zero, any bytes behind it and any pieces: the exact condition for the request to be recognised |
| HttpBody.FieldsOfRequest | epoll/http_conn.cpp:95-320 | with a positive length, url, version, host and linger are then those that were sent |
| HttpAnswers.BodyInOneRead | epoll/http_conn.cpp:254-263 | the end mark stands behind the n bytes of a body that comes in one read, and the bytes are otherwise as sent |
| HttpBody.NegativeLength | epoll/http_conn.cpp:254-263 | with a negative length the request is recognised when its head is complete, the whole state is given, and the url is cut off exactly where the end mark falls within it |
| HttpBody.HugeLength | epoll/http_conn.cpp:254-263 | with a length whose sum overflows the request is recognised when its head is complete |
| HttpBody.EnoughIsOnce | epoll/http_conn.cpp:254-263 | where no sum overflows, the test behind later lines adds nothing |
| HttpBody.BodyMaySplitIff | epoll/http_conn.cpp:254-320 | pieces give the result of a single read if and only if the body is incomplete anyway, or recognised in them; with overflow, if and only if the two conditions agree |
| HttpBody.NeverEnough | epoll/http_conn.cpp:254-320 | with nothing behind the body, once the scanner has passed bytes of it the request is never recognised |
| HttpBody.RecognisedIffStuck | epoll/http_conn.cpp:254-320 | with nothing behind the body, the condition is that the scanner is stuck wherever a piece ends within it |
| HttpBody.RequestWithBody | epoll/http_conn.cpp:95-320 | so a request with a body and nothing behind it is recognised if and only if that is so; in one piece it always is |
| HttpBody.SplitBodyIsMissed | epoll/http_conn.cpp:271-309 | an example of a request whose result depends on the splitting |
| ThreadPool.ExclusionKept | epoll/threadpool.h:71-114 | at most one thread is between lock and unlock |
| ThreadPool.CountingKept | epoll/threadpool.h:71-114 | queue length = semaphore + workers past the wait and before the pop + appenders past the push and before the post |
| ThreadPool.QueueKept | epoll/threadpool.h:71-114 | the queue stays within max_requests + 1, in order, and not empty for a worker that is past the wait |
| ThreadPool.AnswersKept | epoll/threadpool.h:71-96 | append refuses only when the queue holds max_requests + 1, and a worker leaves only after m_stop |
| ThreadPool.AcceptsUpToTheLimit | epoll/threadpool.h:71-82 | while no worker runs, the first max_requests + 1 requests are accepted |
| ThreadPool.RefusesBeyondTheLimit | epoll/threadpool.h:71-82 | and the next one is refused |
| ThreadPool.HandsKept | epoll/threadpool.h:94-114 | every request taken is finished or in the hands of exactly one worker |
| ThreadPool.StepKeepsInv | epoll/threadpool.h:71-114 | every step of every thread keeps all of these |
| ThreadPool.RunsKeepInv | epoll/threadpool.h:71-114 | so they hold in every state of every interleaving |
| ThreadPool.RunsAreSafe | epoll/threadpool.h:71-114 | the branch for an empty queue is never taken, the queue is bounded, requests are dequeued at most once and in the order of acceptance, refusals meet a full queue, and workers leave after m_stop only |
| ThreadPool.NothingIsForgotten | epoll/threadpool.h:71-114 | when no thread is in a call or at work, workers that have left included: the semaphore counts the accepted requests not taken, and every accepted request is finished if and only if it is at zero |
| ThreadPool.StoppedPoolForgets | epoll/threadpool.h:94-98 | after m_stop an accepted request can stay in the queue with no worker left |
| ThreadPool.SomeThreadCanMove | epoll/threadpool.h:71-114 | while a request is queued and a worker is left, some thread can move: no deadlock and no lost wake-up |
| BlockQueue.Ring.constructor | log/block_queue.h:20-32 | an empty queue |
| BlockQueue.Ring.Clear | log/block_queue.h:34-41 | clearing starts again from the empty queue |
| BlockQueue.Ring.Full | log/block_queue.h:52-63 | true if and only if there is no room |
| BlockQueue.Ring.Empty | log/block_queue.h:65-75 | true if and only if there is no item |
| BlockQueue.Ring.Back | log/block_queue.h:90-101 | the item pushed last among those stored, or none |
| BlockQueue.Ring.Place | log/block_queue.h:127-168 | live item k is at (m_front + 1 + k) mod m_max_size |
| BlockQueue.Ring.Push | log/block_queue.h:127-147 | the item goes behind the stored ones, or is refused if and only if the queue is full |
| BlockQueue.Ring.TakeFront | log/block_queue.h:163-167 | the oldest item comes out |
| BlockQueue.Ring.Pop | log/block_queue.h:149-168 | with any operations of other threads during its waits, it agrees with the abstract pop |
| BlockQueue.Ring.TimedPop | log/block_queue.h:171-199 | the same for the pop with a timeout |
| QueueSpec.PopIsFifo | log/block_queue.h:149-168 | whatever happens during the waits, what a pop returns is the oldest item not popped before |
| QueueSpec.TimedPopIsFifo | log/block_queue.h:171-199 | the same for the pop with a timeout |
| QueueSpec.PushedIsTaken | log/block_queue.h:127-168 | items that fit are stored and come out again in order; without room an item is refused and nothing changes |
| QueueSpec.PopAnswers | log/block_queue.h:149-168 | after any waits: the first item of the first queue that is not empty, failure after a failed wait only, and otherwise sleep |
| QueueSpec.PopIsDecided | log/block_queue.h:149-168 | one of these cases always applies |
| QueueSpec.TimedPopAnswers | log/block_queue.h:171-199 | it fails if and only if it had to wait and the wait failed or left the queue empty; otherwise it returns the first item |
| QueueSpec.PushedWhileWaiting | log/block_queue.h:149-199 | an item pushed during a wait is returned by either pop |
| QueueProtocol.RunsAreFifo | log/block_queue.h:127-199 | in every interleaving the items popped since the last clear followed by those stored are the pushed ones in order, every step that takes an item takes the first one of a queue that has one, and nobody sleeps while there is an item |
| QueueProtocol.HistoriesGrow | log/block_queue.h:127-199 | without a clear nothing popped or pushed is forgotten |
| QueueProtocol.NobodyLeavesTooEarly | log/block_queue.h:153-199 | a woken consumer takes an item if there is one and its wait was successful; it leaves without one only if the wait failed or, with a timeout, if the queue is empty, and otherwise waits again |
| QueueProtocol.NobodySleepsTooEarly | log/block_queue.h:149-199 | a consumer goes to sleep only if the queue is empty, and otherwise takes the first item |
| Log.ConservedKept | log/log.cpp:130-153 | every step leaves each formatted line in exactly one place |
| Log.RunsConserve | log/log.cpp:130-153 | with any number of logging threads, each formatted line is at all times with its logger, in the queue, in the writer's hand, in the file, or lost, and in one place only |
| Log.OneLoggerLosesNothing | log/log.cpp:144-153 | with one logging thread the push after a negative full() cannot fail |
| Log.TwoLoggersCanLose | log/log.cpp:144-147 | with two there is a run in which a line is dropped unnoticed, for every capacity |
| Log.NothingLostIffOneLogger | log/log.cpp:144-153 | no run loses a line if and only if at most one thread logs or the queue is not used |
| Log.OrderedIffNotOvertaken | log/log.cpp:144-153 | with one logging thread, the lines written and waiting are in order if and only if no line was written directly while others were waiting |
| Log.FullQueueIsOvertaken | log/log.cpp:144-153 | for every capacity there is such a run |
| Log.TwoLoggersCanSwap | log/log.cpp:130-153 | without the queue, two threads can write in the other order |
| Log.AlwaysOrderedIff | log/log.cpp:130-153 | the file is in order in every run if and only if at most one thread logs and the queue is not used, or nobody logs |
| ProcessPool.Parent.Connect | epoll/processpoolserver.h:269-287 | the connection goes to the first live child in cyclic order from the counter; if and only if none is alive the server stops, and the search always ends |
| ProcessPool.Parent.Connections | epoll/processpoolserver.h:264-290 | the children chosen for any number of connections in a row form such a cyclic stretch |
| ProcessPool.Parent.ChildrenExited | epoll/processpoolserver.h:306-331 | exactly the children that exited are struck off, and the server stops if and only if none is left |
| Dispatch.NextHasTheTurn | epoll/processpoolserver.h:269-285 | successive searches hand out the live children in turn |
| Dispatch.EachInTurn | epoll/processpoolserver.h:264-290 | how many of any stretch of connections each live child gets, exactly |
| Dispatch.KInARow | epoll/processpoolserver.h:264-290 | with k live children, any k connections in a row go to all of them, one each |
| Dispatch.Fair | epoll/processpoolserver.h:264-290 | over any stretch of connections two live children differ by at most one |
| MemoryDetect.Tracker.AllocMem | memoryleak/memorydetect.cc:75-115 | in one thread, the new block is the last of the live ones, the 64-bit total is the sum of their sizes, and the pointer is the one behind the header |
| MemoryDetect.Tracker.Link | memoryleak/memorydetect.cc:98-101 | linking in front of the sentinel keeps the circle |
| MemoryDetect.Tracker.FreePointer | memoryleak/memorydetect.cc:117-167 | null, a bad header and a delete of the wrong form are told apart; a matched free, in any order, takes out exactly that block |
| MemoryDetect.Tracker.FreeTwice | memoryleak/memorydetect.cc:117-132 | a second free of the same block is found out by the header that the first one has cleared |
| MemoryDetect.Tracker.Detach | memoryleak/memorydetect.cc:156-158 | the links around a block after it is taken out, with or without neighbours |
| MemoryDetect.Tracker.Unlink | memoryleak/memorydetect.cc:156-158 | what is left is the circle of the other blocks |
| MemoryDetect.Tracker.CheckLeaks | memoryleak/memorydetect.cc:169-198 | the loop ends and counts allocations minus frees |
| MemoryDetect.Tracker.CheckMemCorruption | memoryleak/memorydetect.cc:200-223 | the loop ends and counts exactly the live blocks with an overwritten header |
| MemoryDetect.Tracker.Forth | memoryleak/memorydetect.cc:98-101 | read forward from the sentinel the circle is the live blocks in the order of allocation |
| MemoryDetect.Tracker.Back | memoryleak/memorydetect.cc:98-101 | read backward it is their reverse |
| MemoryDetect.TotalWithout | memoryleak/memorydetect.cc:153-155 | taking a block out lowers the sum by its size |
| TotalProtocol.AccountedKept | memoryleak/memorydetect.cc:113-159 | with one thread the total lacks exactly the allocation that it is at |
| TotalProtocol.TwoThreadsCanLose | memoryleak/memorydetect.cc:113 | with two, an addition outside the mutex can be lost |
| TotalProtocol.TotalIsRightIffOneThread | memoryleak/memorydetect.cc:98-159 | the total is the sum of the sizes at rest, in every run, if and only if there is at most one thread |

## Left out

- The red-black tree's key type: a template parameter in the source, the integers here.
- RedBlackTree.RBTree.Insert: a call of the four-argument constructor at algorithm/rbtree.h:570 does not match the five-argument one at line 26; the model allocates a fresh unlinked node, which line 551 colours red. An allocation that fails is not modelled.
- `RBTree::destroy`: it returns after descending into one child (algorithm/rbtree.h:799-802), so releasing all nodes is not a property of the code.
- The public searches (algorithm/rbtree.h:213-216, 236-239): they drop the result; the private ones are modelled. `minimum()` and `maximum()` on keys, traversals and printing only read.
- `algorithm/binarytree.h`: a part of the red-black tree's operations, without the repairs.
- Timer callbacks: the wheel records them in `Calls`; the real one does not touch the wheel (epoll/webserver.cpp:35-41). The order of the callbacks of one tick is not stated. The destructor of the wheel is not modelled.
- TimerWheel.TimeWheel.DelTimer: a pointer to a timer that is no longer live is outside the contract, as it is undefined in the source; the same holds for AdjustTimer.
- HttpConnection.HttpConn.ParseContent: an end mark whose place lies outside the buffer, as a negative length, one whose sum overflows, or a full buffer can give, is not modelled. The sum of line 256 is one of ints, whose overflow C++ leaves undefined; the model takes it modulo 2^32, in two's complement.
- `do_request` and everything behind it (epoll/http_conn.cpp:322-366): GetRequest stands for its call. Sockets, epoll, responses and `write` are not modelled.
- HttpBody.RequestWithBody: is stated for requests whose lengths add up to less than 2^31; the buffer holds 2048 bytes.
- HttpConnection.HttpConn.Serve: pieces that do not fit end in a failed read, which is stated for Read alone.
- Characters: bytes are `char` values, and `strcasecmp` is that of the C locale.
- ThreadPool: thread creation and the destructor are not modelled, apart from the step that sets `m_stop`; a wait on the semaphore that fails is not modelled.
- `block_queue::front`: it reads the slot before the head (log/block_queue.h:85). `size` and `max_size` only return a field.
- BlockQueue.Ring.Pop: what other threads do during its waits is a finite list of whole operations per wait; a pop whose list ends is reported as asleep. Timeout arithmetic (log/block_queue.h:173-187) is an arbitrary wake-up.
- Log.RunsConserve: the text of a line is its number; formatting, rotation of files, write errors, and the end of the writer after a failed pop are not modelled.
- ProcessPool.Parent.Connect: forking, pipes, the other signals and the child's own loop are not modelled; exits reach the parent as the list of process numbers that `waitpid` returns.
- MemoryDetect.Tracker.AllocMem: the header's layout beyond its size, file and line, running out of memory and reuse of freed memory are not modelled. The class describes one thread; for several, `TotalProtocol` covers the total, which line 113 changes without the mutex, and takes the list as a sum of sizes.
- `mystl`, `designpattern`, `TestDB`, `clientsocket-cmake` and the epoll examples: containers with simpler properties, demonstrations, and calls into libraries.
