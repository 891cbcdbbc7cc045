# Verified models of five mechanisms of this repository

Five components of the repository share one pattern: a mutable or concurrent
mechanism that is meant to agree with something simple. Each is modelled here
with the branches, constants and error paths of its code, and related to the
simple thing it implements.

| files | component |
|---|---|
| `PageStack.dfy`, `LruPolicy.dfy`, `LruCompetitive.dfy`, `LruTight.dfy` | LRU page replacement (`LRU/`): the circular linked list with its sentinel and the page table as heap objects; the policy on sequences; theorems about the policy |
| `FileSemaphores.dfy`, `BoundedBuffer.dfy` | producers and consumers over file semaphores (`pro_com/`): every command of the scripts as a step; the same system with atomic semaphores; a refinement between them |
| `Heap.dfy`, `Banker.dfy`, `BankerTheory.dfy`, `BankerBooks.dfy`, `BankerRuns.dfy`, `BankerPromise.dfy` | the banker (`并发/银行家算法/`): the class with its heap-driven scan; completion orders; its operations and their books; safety over runs; what it promises against what it does |
| `ReadersWriters.dfy` | the readers/writers protocol in shared memory (`并发/IPC/`) |
| `SafePath.dfy` | URL decoding and path normalisation (`easyServer_v1/webhandler.cc`) |
| `Sums.dfy`, `Options.dfy` | sums over processes, cardinalities, an option type |

Objects that the code updates in place are classes, its loops are loops, and
each method is tied to a function whose properties are lemmas. The two
protocols run in many processes at once, so they are step machines: a schedule
says which process moves next, and results hold for every schedule.

Where code and documentation differ, the model follows the code:

* `newstack` never sets `size` (`LRU/src/stack.c:4-13`). The model lets the
  word hold anything; the memory then has `contain - garbage` frames, so it has
  the intended capacity exactly when the word happens to be zero, and dies on
  the first request if nothing positive remains.
* `run.sh` resets the semaphores but not `buffer.txt` (`pro_com/run.sh:10-12`).
  Delivery is still first in, first out, but with a producer the buffer keeps to
  `bufsize` in every run exactly when the file was empty; otherwise the exact
  maximum is `bufsize` plus the left-over lines, and as many lines always stay
  undelivered.
* `并发/银行家算法/Banker.hpp:29-34` promises to grant a request when the result is safe. The
  comparator builds a max-heap, so the scan begins with the neediest thread and
  grants only when everything fits at once. PromiseKeptIff says for every
  request when the answer agrees with safety. While what is available covers
  each single claim, every request within the claim would be safe to grant; in
  any other safe bank every non-negative request is refused.
* A negative `need` can take a holding below zero (`并发/银行家算法/Banker.cpp:18-39`).
  RoomySlipsIff, SlipsOnceIff and LateBest say when such a request is granted.
* `remove` and `add_thread` do not ask whether the result is safe. RemoveSafeIff
  and AddSafeIff give the exact condition, overwritten ids included, and
  RunsStaySafeIff says when every run stays safe. From a new safe bank, removals
  are unsafe only after a claim was added beyond what was available, or a
  request slipped below zero (RunsStayRoomyIff).
* An id registered twice is listed twice, and `is_safe` then counts what it
  holds twice (`并发/银行家算法/Banker.cpp:8-15`). While no holding is negative, its
  running value stays within the books if threads are listed once or those
  listed twice hold nothing; a complete scan stays there only then. With
  non-negative holdings the answers do not depend on this.
* The semicolon at `并发/IPC/SharedMeM.c:61` makes every reader wait on `wmtx`,
  while only a reader that finds `readers` at zero gives it back. The token
  survives all runs, and no state is reachable where every process waits,
  exactly when at most one process reads; this is the hang that
  `并发/IPC/README.md` reports for several readers. Once the token is lost at
  most twelve steps per process remain.

## Model

| member | source | states |
|---|---|---|
| PageStack.Stack.constructor | LRU/src/stack.c:4-13 | a new list is the empty cycle; its capacity is `contain` less whatever the unset size word held |
| PageStack.Stack.BothChains | LRU/src/stack.h:6-17 | one cycle through the sentinel: `next` visits the list from the top, `prev` visits it in exact reverse, both return after one step more than its length |
| PageStack.Stack.Push | LRU/src/stack.c:15-27 | prepends the node, or changes nothing when the list is full or the node has links |
| PageStack.Stack.DelNode | LRU/src/stack.c:39-46 | removes exactly that node, clears its links and keeps the cycle |
| PageStack.Stack.SetTop | LRU/src/stack.c:29-37 | moves the node to the front; dies exactly when the node has no links |
| PageStack.Stack.Bottom | LRU/src/stack.c:48-55 | the last node, or null for the empty list |
| PageStack.InitIpages | LRU/src/LRU.c:6-21 | a table of distinct pages numbered by position, unflagged and unlinked |
| PageStack.Evict | LRU/src/LRU.c:56-57 | unlinking and unmarking the bottom page keeps list, flags and table in agreement |
| PageStack.Load | LRU/src/LRU.c:38-39 | pushing and marking an absent page prepends it; the push never returns early |
| PageStack.Promote | LRU/src/LRU.c:32-33 | settop on a flagged page never dies and moves its number to the front |
| PageStack.SwapPage | LRU/src/LRU.c:46-60 | replaces the bottom page by the needed one at the front; dies exactly on an empty list |
| PageStack.UsePage | LRU/src/LRU.c:23-44 | makes exactly the policy's move on the resident list and keeps flags, links and size right; dies exactly on an illegal page number or without capacity |
| PageStack.ResidentIff | LRU/include/LRU.h:10-15 | `is_inmem` holds exactly for the pages on the list |
| PageStack.PrintLRU | LRU/src/LRU.c:70-95 | the traversal shows the whole list in order, and as absent exactly the other pages in ascending order |
| PageStack.Serve | LRU/main.c:17-21 | the request loop leaves the list that the policy reaches on the requests served, and says why it ended |
| PageStack.Session | LRU/main.c:13-22 | end to end: what is shown last is the list of the most recently used pages, at most as many as the real capacity |
| LruPolicy.LastUse | LRU/README.md:5 | the index of the last use of a page in a trace, or -1 |
| LruPolicy.HistoryRefinement | LRU/src/LRU.c:23-60 | after any trace the resident list is the one and only list of the min(k, distinct) most recently used pages by decreasing last use |
| LruPolicy.VictimIsLeastRecent | LRU/src/LRU.c:46-60 | the page that leaves in a swap was last used before every other resident page, and only it leaves |
| LruPolicy.Inclusion | LRU/src/LRU.c:32-43 | the list of a smaller memory is a prefix of that of a larger one on the same trace |
| LruPolicy.NoBeladyAnomaly | LRU/src/LRU.c:32-43 | more frames never cause more faults |
| LruPolicy.SegmentFaults | LRU/src/LRU.c:34-43 | a trace segment touching at most k pages faults at most once per distinct page |
| LruPolicy.ManyFaultsManyPages | LRU/src/LRU.c:34-43 | a segment with more than k faults touches at least k + 1 distinct pages |
| LruCompetitive.TouchPotential | LRU/src/LRU.c:23-60 | a fault in a full memory releases at least k - h + 1 of the potential, no other request raises it |
| LruCompetitive.AlwaysBalanced | LRU/src/LRU.c:23-60 | the amortised inequality between this memory and any policy with h frames, on every trace, one that loads pages in advance included |
| LruCompetitive.Competitive | LRU/src/LRU.c:23-60 | (k - h + 1) times the faults is at most k times the loads of any policy with h <= k frames plus k(k - h) |
| LruCompetitive.DemandCompetitive | LRU/src/LRU.c:23-60 | the same in terms of faults against policies that load requested pages only |
| LruCompetitive.EqualFrames | LRU/src/LRU.c:23-60 | with equally many frames, at most k times the loads of any other policy |
| LruTight.FactorIsTight | LRU/src/LRU.c:23-60 | for every h <= k, no factor below k / (k - h + 1) suffices against policies with h frames, whatever constant is added, even if they load requested pages only |
| LruTight.Round | LRU/src/LRU.c:34-43 | from any point, requests on which this memory faults k times and a policy with h frames k - h + 1 times |
| LruTight.Adversary | LRU/src/LRU.c:34-43 | over more than k pages there are requests of any number that all fault |
| BoundedBuffer.StepCredits | pro_com/bin/producer.sh:8-19 | every step keeps the credit equations: mutex token, lines in the buffer, buffer slots |
| BoundedBuffer.StepFifo | pro_com/bin/comsumer.sh:6-19 | every step keeps delivery first in, first out, although a consumer reads, copies and replaces the buffer in separate steps |
| BoundedBuffer.MutualExclusion | pro_com/bin/comsumer.sh:10-16 | at most one process is in the critical section |
| BoundedBuffer.NeverReadsEmpty | pro_com/bin/comsumer.sh:9-13 | a consumer holding a data credit finds a line |
| BoundedBuffer.RunInv | pro_com/run.sh:14-21 | the invariant holds in every run of any number of producers and consumers |
| BoundedBuffer.FifoDelivery | pro_com/run.sh:3-21 | in every run: produced equals consumed followed by the buffer, counters are never negative, the buffer never exceeds its size plus left-over lines and never shrinks below the left-over ones, nobody reads an empty buffer |
| BoundedBuffer.DeliveredAre | pro_com/bin/producer.sh:8-19 | what is delivered is what was left over and then the producers' own lines in the order they appended them; a producer's line never changes |
| BoundedBuffer.OverflowIff | pro_com/run.sh:3-12 | with a producer, the buffer stays within `bufsize` in every run if and only if it started empty; size plus left-over lines is the exact maximum |
| BoundedBuffer.Progress | pro_com/bin/producer.sh:11-18 | with room and both kinds of process, every reachable state has an enabled step |
| BoundedBuffer.StepsDeliver | pro_com/run.sh:14-21 | a run has at most twelve steps per delivery, plus five per buffer slot and four per process |
| FileSemaphores.StepLockInv | pro_com/bin/_sem_wait_.sh:19-35 | under the shared lock the number read is still the counter when it is written back, and a file is empty only inside its own rewriting |
| FileSemaphores.Stutters | pro_com/bin/_sem_wait_.sh:22-34 | locking, reading, a failed test, unlocking and sleeping change nothing in the atomic model |
| FileSemaphores.Refines | pro_com/bin/_sem_post_.sh:6-13 | writing the new number, and each buffer command, is exactly the enabled atomic step of the same process |
| FileSemaphores.RunRefines | pro_com/bin/_sem_wait_.sh:19-35 | every run of the commands is a run of atomic counting semaphores; no update is lost |
| FileSemaphores.ScriptsAreSafe | pro_com/run.sh:3-21 | delivery, bounds and non-negative counter files for every interleaving of the scripts' commands |
| FileSemaphores.ScriptsDeliverLines | pro_com/bin/producer.sh:8-19 | the same of the lines delivered, for every run of the scripts |
| FileSemaphores.WaitRound | pro_com/bin/_sem_wait_.sh:22-30 | undisturbed, a wait on a positive counter is six commands and lowers it by one |
| FileSemaphores.RefusedRound | pro_com/bin/_sem_wait_.sh:22-34 | on any other counter it is five commands, after which nothing has changed |
| FileSemaphores.PostRound | pro_com/bin/_sem_post_.sh:6-13 | a post is five commands and raises the counter by one |
| FileSemaphores.Realises | pro_com/bin/_sem_wait_.sh:19-35 | the converse of the refinement: every run of the atomic semaphores is the visible part of a run of the commands |
| FileSemaphores.ScriptsOverflowIff | pro_com/run.sh:3-12 | with a producer, the scripts keep the buffer within `bufsize` in every run if and only if they found it empty |
| FileSemaphores.Drive | pro_com/bin/_sem_wait_.sh:23-32 | the lock holder alone releases the lock, with its call completed or nothing changed |
| FileSemaphores.Complete | pro_com/bin/_sem_wait_.sh:22-34 | with the lock free, an enabled process can make exactly its next step and leave the lock free |
| FileSemaphores.ScriptsProgress | pro_com/bin/producer.sh:11-18 | from every reachable state some process can complete a step that is not spinning |
| FileSemaphores.ScriptsNeverStuck | pro_com/run.sh:14-23 | the same for every run from the start, whatever spinning went before |
| FileSemaphores.ScriptsDeliver | pro_com/run.sh:14-23 | the bound on steps per delivery for every run of the scripts, spinning not counted |
| FileSemaphores.ScriptsKeepDelivering | pro_com/run.sh:14-23 | whatever has happened, any number of lines can still be delivered |
| ReadersWriters.TokenStep | 并发/IPC/SharedMeM.c:55-106 | exact accounting of the `wmtx` token: every step keeps it except a reader that leaves finding `readers` non-zero |
| ReadersWriters.MutualExclusion | 并发/IPC/SharedMeM.c:61-91 | for any number of readers and writers and any interleaving, at most one process owns `wmtx` |
| ReadersWriters.EveryReadIsLatest | 并发/IPC/chat.cpp:47-68 | every read returns the number given to the writer that completed its store last before it, or the initial value |
| ReadersWriters.LogIsInputs | 并发/IPC/chat.cpp:47-57 | what is stored, in order, is what the storing writers were given last, in every run |
| ReadersWriters.SoloRead | 并发/IPC/SharedMeM.c:55-77 | alone, a reader completes a round in thirteen steps and leaves everything as it was |
| ReadersWriters.SoloWrite | 并发/IPC/SharedMeM.c:79-106 | alone, a writer completes a round in sixteen steps, its number is stored and nothing else changes |
| ReadersWriters.GateStep | 并发/IPC/SharedMeM.c:79-106 | `rmtx`, the readers inside the gate and the writer group's share always add up to one; `writers` counts the writers between increment and decrement |
| ReadersWriters.GroupGateBit | 并发/IPC/SharedMeM.c:79-106 | the group's share is zero or one |
| ReadersWriters.GateUnique | 并发/IPC/SharedMeM.c:57-64 | two readers are never both inside the gate |
| ReadersWriters.GroupOwnsIff | 并发/IPC/SharedMeM.c:79-106 | the group owns the gate if and only if some writer is between the end of `will_write` and the post in `finish_write` |
| ReadersWriters.WritersShutGate | 并发/IPC/SharedMeM.c:52-106 | in every run: `rmtx` is taken with no reader inside the gate if and only if some writer is between the end of `will_write` and the post in `finish_write`; at most one reader is inside |
| ReadersWriters.GateShut | 并发/IPC/SharedMeM.c:57-58 | the group owns the gate if and only if `rmtx` is taken with no reader inside, and then no reader can get past its wait |
| ReadersWriters.SingleStep | 并发/IPC/SharedMeM.c:55-106 | with at most one reader every step keeps the token total at exactly one and `readers` exact |
| ReadersWriters.Progress | 并发/IPC/SharedMeM.c:55-106 | with any number of readers, while the token is there: if some process is mid-protocol then some process mid-protocol can move |
| ReadersWriters.StuckOnlyLost | 并发/IPC/SharedMeM.c:55-106 | in every run, a state where nobody can move is one where the token is lost |
| ReadersWriters.SingleReaderNeverStuck | 并发/IPC/SharedMeM.c:55-106 | with at most one reader, progress in every state reached from the start |
| ReadersWriters.LostForever | 并发/IPC/SharedMeM.c:55-77 | once the token is lost, no continuation reads or writes the shared integer again |
| ReadersWriters.LostStops | 并发/IPC/SharedMeM.c:55-106 | and no continuation is longer than twelve steps per process: everything comes to a halt |
| ReadersWriters.TwoReadersLose | 并发/IPC/README.md:7 | any two readers among any processes can reach that state from the start |
| ReadersWriters.TokenSurvivesIff | 并发/IPC/SharedMeM.c:55-106 | the token survives every run if and only if at most one process reads |
| ReadersWriters.HangIff | 并发/IPC/README.md:7 | a state where no process can move is reachable if and only if at least two processes read |
| Heap.SiftDown | 并发/银行家算法/Banker.cpp:52 | the sift inside make_heap and pop_heap: restores the heap below a position, permuting only |
| Heap.MakeHeap | 并发/银行家算法/Banker.cpp:52 | make_heap: a permutation that is a heap |
| Heap.PopHeap | 并发/银行家算法/Banker.cpp:62 | pop_heap: the largest goes behind the others, which form a heap; a permutation |
| Heap.FrontIsLargest | 并发/银行家算法/Banker.hpp:82-88 | with `<` as comparator the front has the largest remaining claim |
| BankerClass.Banker.constructor | 并发/银行家算法/Banker.cpp:3-16 | on record are exactly the ids given, each with the claim given last for it and nothing held; the bank is safe exactly when no such claim exceeds the total |
| BankerClass.Banker.IsSafe | 并发/银行家算法/Banker.cpp:48-65 | only permutes the list, visits by non-increasing remaining claim up to the first thread that does not fit, answers whether that order completes; with non-negative holdings whether everything fits at once, and how far the running value can climb |
| BankerClass.Banker.Request | 并发/银行家算法/Banker.cpp:18-46 | for every thread and every amount: throws for an unknown thread, answers as a scan by descending claim may, moves as the transition function does, and unless it grants changes no holding, claim or availability |
| BankerClass.Banker.Allot | 并发/银行家算法/Banker.cpp:31-45 | allocation, scan and rollback: a failed scan restores availability and every holding and claim |
| BankerClass.Banker.UpdateSrc | 并发/银行家算法/Banker.cpp:67-85 | 0 returns the whole holding to what is available, an amount the thread holds returns exactly that, any other amount changes nothing; no other thread and no claim changes; throws for an unknown thread |
| BankerClass.Banker.AddThread | 并发/银行家算法/Banker.cpp:87-92 | registers a thread; the list stays without repetition exactly when the id was new |
| BankerClass.Banker.Remove | 并发/银行家算法/Banker.hpp:106-126 | drops every known id from list and table, ignores unknown ones, and leaves the other threads and what is available as they were |
| BankerClass.EraseRemove | 并发/银行家算法/Banker.hpp:112-119 | in-place compaction leaves the list without that id, in order |
| BankerTheory.GreedyExact | 并发/银行家算法/Banker.hpp:82-88 | the ascending scan succeeds if and only if some completion order exists |
| BankerTheory.AscendingBest | 并发/银行家算法/Banker.cpp:53-63 | exchange argument: if any order completes, so does every ascending one |
| BankerTheory.DescendingExact | 并发/银行家算法/Banker.cpp:48-65 | the descending scan succeeds if and only if everything fits at once, and then every order completes |
| BankerTheory.FitIsSafe | 并发/银行家算法/Banker.cpp:34-38 | the code's test implies safety |
| BankerTheory.StricterThanSafe | 并发/银行家算法/Banker.hpp:82-88 | and is not implied by it |
| BankerBooks.ApplyConserves | 并发/银行家算法/Banker.cpp:18-92 | available plus held plus leaked equals the total after every operation, properly used or not |
| BankerBooks.RunsConserve | 并发/银行家算法/Banker.cpp:18-92 | the same over every run |
| BankerBooks.ScanWithinBooksIff | 并发/银行家算法/Banker.cpp:50-61 | with non-negative holdings, the running value of a scan down the list stays within the books at every point if and only if no thread listed twice holds anything; otherwise its last value is beyond them |
| BankerBooks.RepeatedIdExceeds | 并发/银行家算法/Banker.cpp:8-15 | an id registered twice that holds h takes the running value to the total plus h |
| BankerRuns.AnswerExact | 并发/银行家算法/Banker.cpp:18-46 | while holdings stay non-negative the answer does not depend on how the heap orders equal claims: granted if and only if within claim and availability and everything fits afterwards |
| BankerRuns.GrantedIff | 并发/银行家算法/Banker.cpp:18-46 | a request is granted if and only if it is within the claim and what is available covers the requester's whole remaining claim and, after it, everyone else's |
| BankerTheory.LateBest | 并发/银行家算法/Banker.cpp:50-61 | with one holding below zero: if any descending order completes, so does every one that puts its thread last among equal claims |
| BankerRuns.MayGrantIff | 并发/银行家算法/Banker.cpp:31-38 | some order of the scan grants if and only if one with the requester last among equal claims completes |
| BankerRuns.RequestSafeIff | 并发/银行家算法/Banker.cpp:18-46 | a request keeps the bank safe, whatever the order of equal claims, if and only if it does not slip below zero, a condition on the state before the call |
| BankerPromise.RoomySlipsIff | 并发/银行家算法/Banker.cpp:18-46 | in a bank where everything available covers each single claim, a request of a thread listed once slips below zero if and only if it passes the two tests before the scan and would leave a negative holding; it is then always granted |
| BankerPromise.SlipsOnceIff | 并发/银行家算法/Banker.cpp:18-46 | in any other safe bank, with threads listed once: if and only if it is covered and the threads behind it in the scan fit into what was available, what it held and what the threads before it hold |
| BankerPromise.BelowZeroGranted | 并发/银行家算法/Banker.cpp:18-46 | an input: an idle thread with the whole total as its claim asks for less than nothing and is granted it |
| BankerRuns.ReplayRelease | 并发/银行家算法/Banker.cpp:76-79 | after a partial release the same order still completes |
| BankerRuns.ReleaseSafe | 并发/银行家算法/Banker.cpp:67-85 | a release keeps the bank safe |
| BankerRuns.AddSafeIff | 并发/银行家算法/Banker.cpp:87-92 | registering an id, new or already on record, keeps the bank safe if and only if its claim is within what is then on the books and the other threads complete by ascending claim with what is available |
| BankerRuns.AddFreshIff | 并发/银行家算法/Banker.cpp:87-92 | for a new id: if and only if its claim is within what is on the books |
| BankerRuns.RemoveSafeIff | 并发/银行家算法/Banker.hpp:106-126 | removing any threads keeps the bank safe if and only if the others complete by ascending claim with what is available |
| BankerRuns.RemoveSafe | 并发/银行家算法/Banker.hpp:106-126 | removing threads that hold nothing keeps the bank safe |
| BankerPromise.RunsStayRoomyIff | 并发/银行家算法/Banker.hpp:27-34 | what is available covers each single claim throughout every run if and only if no request slips below zero and no claim is added beyond what is available; so removals, of holders too, are unsafe only after such an addition |
| BankerPromise.RemovingHolderUnsafe | 并发/银行家算法/Banker.hpp:106-126 | the reachable input: from a new bank a thread gets its claim, a second one is added with the total as its claim, and removing the first leaves the bank unsafe |
| BankerRuns.OpSafeIff | 并发/银行家算法/Banker.hpp:27-34 | each call keeps the bank safe, whatever the answer, if and only if it is properly used, a condition on the state before it |
| BankerRuns.FreshGoodIff | 并发/银行家算法/Banker.cpp:3-16 | with nothing held, the bank is safe if and only if every claim is within the total |
| BankerRuns.RunsStaySafeIff | 并发/银行家算法/Banker.hpp:27-34 | every run of the calls, whatever the answers, is safe throughout if and only if every call in it is properly used |
| BankerPromise.PromiseKeptIff | 并发/银行家算法/Banker.hpp:29-34 | for every request in a safe bank: the answer agrees with the safety of the result if and only if, where each single claim is covered or something is given back, the others stay covered, and elsewhere the result fails the ascending scan |
| BankerPromise.FullClaimBlocksOthers | 并发/银行家算法/Banker.cpp:48-65 | while one thread may still claim the whole total, every request of another is refused |
| BankerPromise.RefusesSafeRequest | 并发/银行家算法/Banker.hpp:29-34 | where each single claim is covered every request within the claim is safe to grant, and is refused if and only if another thread's claim would no longer be covered |
| SafePath.DigitIff | easyServer_v1/webhandler.cc:81-83 | the sixteen digits in either case, and the value of each |
| SafePath.HexPair | easyServer_v1/webhandler.cc:81-83 | two digits in either case decode to the byte they spell |
| SafePath.OddPair | easyServer_v1/webhandler.cc:81-83 | what `strtol` makes of every other pair: one digit counts, after a minus sign negatively, and the rest is zero |
| SafePath.DecodePieces | easyServer_v1/webhandler.cc:73-95 | wherever a piece stands: a character decodes to itself, `+` to a space, `%` and two characters to a byte, an incomplete escape to nothing |
| SafePath.DecodeInverts | easyServer_v1/webhandler.cc:73-95 | decoding inverts every percent-encoding of every byte string, and nothing else encodes to it |
| SafePath.RoundTrip | easyServer_v1/webhandler.cc:73-95 | decoding undoes the encoding of section 2.1 of RFC 3986, whatever case the encoder chooses for each digit |
| SafePath.WebHandler.constructor | easyServer_v1/webhandler.cc:39-45 | the root is kept but for at most one trailing slash, and still ends in one only if it ended in two |
| SafePath.WebHandler.UrlDecode | easyServer_v1/webhandler.cc:73-95 | the index loop computes the recursive decoding, malformed escapes included |
| SafePath.WebHandler.Normalise | easyServer_v1/webhandler.cc:111-130 | the segment loop computes the stack fold over the pieces between slashes |
| SafePath.WebHandler.Compose | easyServer_v1/webhandler.cc:137-143 | the last loop yields the root followed by the joined names |
| SafePath.WebHandler.MakeSafePath | easyServer_v1/webhandler.cc:97-144 | cut at the query, decode, check the slash, fold, default page, join |
| SafePath.FoldDepth | easyServer_v1/webhandler.cc:114-130 | the fold fails exactly when some prefix climbs above the root, and its stack is as high as the path is deep |
| SafePath.QueryCut | easyServer_v1/webhandler.cc:101-106 | the result is that of everything before the first question mark, whatever follows it |
| SafePath.RefusedIff | easyServer_v1/webhandler.cc:108-123 | with or without a query, the result is empty exactly when the decoded path has no leading slash or climbs above the root |
| SafePath.DefaultPage | easyServer_v1/webhandler.cc:132-135 | a path that ends at the root is answered with `index.html` |
| SafePath.PlainIsServed | easyServer_v1/webhandler.cc:97-144 | a plain path of clean names, with or without a query, is served from under the root as it is |
| SafePath.EncodedIsServed | easyServer_v1/webhandler.cc:97-144 | any byte names are reached by percent-encoding the path, whatever the encoder |
| SafePath.StaysBelowRoot | easyServer_v1/webhandler.cc:132-143 | an accepted path is the root followed by at least one name, none empty, `.`, `..` or with a slash |
| SafePath.DotIsNothing | easyServer_v1/webhandler.cc:118 | empty and `.` segments can be left out anywhere |
| SafePath.DotDotCancels | easyServer_v1/webhandler.cc:119-126 | a name followed by `..` can be left out anywhere |
| SafePath.NamesStay | easyServer_v1/webhandler.cc:125-127 | names, that is all segments but the empty one, `.` and `..`, are their own normal form |
| SafePath.SplitJoin | easyServer_v1/webhandler.cc:114-143 | joining segments without slashes and splitting again gives them back |
| SafePath.IdempotentIff | easyServer_v1/webhandler.cc:97-144 | normalising an accepted path again changes nothing if and only if it has no `%`, `+` or `?` |
| SafePath.TwiceEscaped | easyServer_v1/webhandler.cc:73-95 | paths where it does not: an escaped `%` before two hex digits is decoded once more each time, as `/%2525` to `/%25` to `/%` |

## Left out

- Integers are unbounded: `int` overflow in sizes, counters, claims and page numbers is not modelled.
- PageStack.UsePage: takes a non-negative page number, because a negative index has no defined behaviour in the code, which checks only the upper bound.
- PageStack.Stack.DelNode: takes a node of this list, because the code follows the links of any other node without a check.
- BoundedBuffer.Progress: says that some process can move, not that each one eventually does; `flock` gives no fairness. StepsDeliver bounds what can happen without a delivery.
- ReadersWriters.Progress: says that some process can move, not that each one eventually does.
- `die` ends the program: the methods report it and change nothing more.
- `malloc` failure, `free`, `destroyipages` and `delete_stack`.
- `std::mutex` in the banker: each public method is one atomic step. `set_details` and `issafe` bypass the bookkeeping for experiments.
- `shm_open`, `mmap` and the repeated initialisation by every writer process that starts (`并发/IPC/SharedMeM.c:29-39`): the shared head is initialised once. Mutexes are taken to work across processes.
- The order in which waiting processes are woken, signals, and processes that die inside a call.
- `sleep`, console output and file-system errors of the scripts. A produced line contains no line break.
- Request reading, headers, MIME types and sending in `easyServer_v1`.
- `goRPC`, `eBPF`, `CPUvirtualization`, `MEMvirtualization`: network plumbing, kernel helpers and timing measurements.
