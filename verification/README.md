# A model of glibevent

glibevent is an event-loop networking library in Go. This project models its three hard layers in Dafny and
proves what callers rely on, for all inputs, all runs and all interleavings.

**The task queue and the wake-up of the poller.** `LockFreeQueue.dfy` is the Michael-Scott queue as a transition
system: `Step` is one atomic load, compare-and-swap or add of one of any number of goroutines, each with a program
counter and locals, over a heap of nodes that are never reused; a schedule determines a run. `QueueTheorems.dfy`
proves its shape, linearizability, what `length` and `IsEmpty` mean, and lock-freedom with a bound. `Poller.dfy` is
the handshake between `Trigger`/`UrgentTrigger` and the chores of `Polling` through `wakeupCall` and an eventfd, over
two such queues seen at the granularity link / count / unlink / discount: no wake-up is lost, although the length the
poller looks at may lag, and every task runs. `PollerQueues.dfy` puts the real queues into the poller, every atomic
access being a step, and proves that each of its runs is a run of that model; `PollerRuns.dfy` proves the converse, and
that Polling left to itself ends. So what the model promises holds of the composed system, and what it suffers too.

**The buffers and the byte streams over them.** `Ring.dfy` (a circular buffer in an array), `LinkedList.dfy` (nodes),
`ElasticRing.dfy` and `Elastic.dfy` are the source's classes; each carries a ghost `Contents` that its methods treat as
one sequence of bytes. `Outbound.dfy` says on values what Write, writev, WriteFlush and the parts of Close do to a
connection, and proves conservation of the stream over every run of such calls, which may come between the parts of a
Close; `Connection.dfy` is the connection itself, over the elastic buffer, and refines it. `Framing.dfy` says on values what the decoder makes of bytes that arrive in chunks, and proves when the
chunks do not matter; `Inbound.dfy` is the decoder and its loop, over the ring, and refines that. The source's
connection is one object with an inbound and an outbound buffer that share nothing; it is two classes here.

**The pools and their arithmetic.** `ByteSlicePool.dfy`, `RingPool.dfy`, `PowerOfTwo.dfy` (over `Bits.dfy`).

What the kernel answers is a parameter of each step or method: an event, EAGAIN, an error, or a count of at least 1 of
the bytes offered; an empty write gives 0. So is whether a `sync.Pool` still has what was put into it.

## What the proofs found

Each has its exact condition, and a run or an input that shows it.

* `WriteByte` panics on a full ring of 4096 bytes or more: there, grow(1) does not enlarge it
  (`Ring.Buffer.WriteByte`, `Ring.FullRingPanics`).
* A Write or writev that meets a kernel error, a closed descriptor, an empty argument or more than 1024 slices while
  nothing is buffered calls Close with the write lock held, and Close waits for that lock: the goroutine, and every
  later writer, hangs (`Outbound.HeldIffACallHung`, `Outbound.WritesThatHang`).
* Close gives up the write lock between its drain loop and its release. A Write that comes in when the descriptor is
  closed hangs so, and the Close, often the event loop's own, hangs in its release (`Outbound.ReleaseHangsIffACallHung`,
  `Outbound.WriteWhileClosingHangs`). And a write event that comes in before the descriptor is off the poller, when the
  drain loop has sent everything, makes WriteFlush fail, for which the event loop closes once more; when something is
  left it does not (`Outbound.WriteEventsKeepOpen`, `Outbound.WriteEventWhileClosing`).
* A wake-up is lost when the 32-bit length of a queue has wrapped around to 0 where Polling tests it: it goes back to
  sleep over 2^32 tasks (`Poller.MisreadSleeps`, `Poller.WrapLosesWakeUp`, `PollerRuns.WrapLosesWakeUp`).
* Write and writev return -1 without an error when the kernel had no room, although all the data was accepted
  (`Outbound.Reply`, `Outbound.AcceptedButMinusOne`).
* Frames with a body length that is not positive make the decoded frames depend on how the bytes arrive: Peek and
  Discard take such a length for "everything", and a header alone is dropped
  (`Framing.ChunkIndependentIffClean`, `Framing.EmptyMessageDependsOnChunks`).
* Frames that arrive in the same event as the end of the stream are not decoded
  (`Inbound.Conn.EventRead`, `Inbound.EndOfStreamDropsFrames`).
* CeilToPowerOfTwo and its siblings are wrong for arguments above 2^32 with 32 zero bits in a row, there being no shift
  by 32, and ClosestPowerOfTwo for two arguments whose subtraction overflows
  (`PowerOfTwo.CeilExactly`, `PowerOfTwo.ClosestExactly`); IsPowerOfTwo holds of 0 and of the least int64.
* The last of the byte-slice pool's 32 classes is never filled (`ByteSlicePool.PutUndoesGet`).
* The calibration of the ring pool counts rings too long for any bucket in the last one, and chooses sizes no greater
  than its: so fewer than 95% of the rings may meet the maxSize chosen, even none (`RingPool.CalibrationCoversRings`,
  `RingPool.TooLongIsNotKept`).

## Model

| member | source | states |
|---|---|---|
| LockFreeQueue.EnqueueStep | internal/queue/lock_free_queue.go:104-125 | every step of an Enqueue, from any state that satisfies the invariant, keeps it: acyclic chain, tail at or after head and at most one behind the end, the thread's locals still where it found them on the chain |
| LockFreeQueue.DequeueStep | internal/queue/lock_free_queue.go:129-153 | the same for every step of a Dequeue; in particular next is not nil where line 145 dereferences it |
| LockFreeQueue.FreshKept | internal/queue/lock_free_queue.go:105-113 | no step of one thread links, or writes the next pointer of, a node another Enqueue has allocated but not linked |
| LockFreeQueue.InvStep | internal/queue/lock_free_queue.go:104-153 | any step of any of the threads keeps the whole invariant |
| LockFreeQueue.Reachable | internal/queue/lock_free_queue.go:98-153 | the invariant holds after every schedule of any number of threads |
| QueueTheorems.ListIsWellLinked | internal/queue/lock_free_queue.go:106-146 | in every reachable state the list from head visits no node twice and ends in the only nil, tail is its last node or the one before, and no thread has dereferenced nil |
| QueueTheorems.TailFallsBehind | internal/queue/lock_free_queue.go:112-116 | in every reachable state, tail is not the last node only while the Enqueue that linked that node is about to swing tail to it |
| QueueTheorems.OnlyCasesChangeTheQueue | internal/queue/lock_free_queue.go:113-148 | in every reachable state, whichever thread moves next: the queue gets the node's task appended if the step is a successful link CAS, loses its front, which is the task to be returned, if it is a successful head CAS, and is unchanged otherwise |
| QueueTheorems.EffectsAreSequentialFifo | internal/queue/lock_free_queue.go:103-153 | linearizability, first half: at every point of every run, the operations of all threads, performed one after the other where they take effect (a link CAS, a head CAS, the load of line 133 for a Dequeue that returns nil), give a sequential FIFO queue the answers they return, and leave it holding what the list holds |
| QueueTheorems.CallsTakeEffectOnce | internal/queue/lock_free_queue.go:103-153 | linearizability, second half: for every thread the same history is a sequence of whole calls, each taking effect exactly once, between its invocation and its return, as the operation it returns, nil included; then at most one call that is under way |
| QueueTheorems.Linearizable | internal/queue/lock_free_queue.go:103-153 | both halves for every run, over one history of all invocations, effects and returns |
| QueueTheorems.NilMeansEmpty | internal/queue/lock_free_queue.go:131-141 | when a Dequeue will return nil, the queue is empty at that call's own load of head.next on line 133 |
| QueueTheorems.LengthIsAccounted | internal/queue/lock_free_queue.go:113-116 | in every reachable state length is, modulo 2^32, the size of the queue, less the enqueues that linked and have not counted, plus the dequeues that unlinked and have not discounted |
| QueueTheorems.WhenIsEmptyIsRight | internal/queue/lock_free_queue.go:156-158 | IsEmpty is true of a non-empty queue only while an Enqueue is between its link and its count; with no operation in flight it is exact |
| QueueTheorems.RetryFollowsCas | internal/queue/lock_free_queue.go:106-152 | in every run: when a step is a goto retry, some CAS of some thread, named by its place in the run, has succeeded since the iteration that ends there began |
| QueueTheorems.RetriesAreBounded | internal/queue/lock_free_queue.go:106-152 | in every run the retries of a thread, over all its calls, are at most three times the nodes linked so far |
| Poller.CallerNoticed | internal/netpoll/epoll_optimized_poller.go:94-95 | each step of a Trigger keeps the invariant that a queue with tasks has someone who will see to it |
| Poller.LoopNoticed | internal/netpoll/epoll_optimized_poller.go:154-188 | each step of Polling keeps it, although IsEmpty may read 0 while a task is queued that has not been counted; a test that reads 0 of a length that has wrapped around excepted |
| Poller.InvStep | internal/netpoll/epoll_optimized_poller.go:91-188 | any step keeps the token count, the length accounting and the order of the tasks, also after a shutdown |
| Poller.WatchedStep | internal/netpoll/epoll_optimized_poller.go:91-188 | any step that does not misread a length keeps that each queue with tasks has someone who will see to it |
| Poller.OneTokenAtMost | internal/netpoll/epoll_optimized_poller.go:91-188 | in every reachable state until a shutdown wakeupCall is the number of pending signals, of CAS winners that have yet to write, and of the poller between its read of the eventfd and its store of 0 or before its own write; so at most one signal is outstanding, and after a shutdown too |
| Poller.NoLostWakeUp | internal/netpoll/epoll_optimized_poller.go:154-188 | whenever Polling waits with no signal pending while a task is queued, some Trigger that has linked its task has yet to CAS or to write; so when none is in flight both queues are empty; in every run in which no test reads 0 of a length that has wrapped around to it |
| Poller.ShortQueuesAreRead | internal/netpoll/epoll_optimized_poller.go:181 | no test does, if there are fewer than 2^32 callers and each test is of a queue of fewer than 2^32 tasks |
| Poller.MisreadSleeps | internal/netpoll/epoll_optimized_poller.go:180-188 | and conversely: with no Trigger in flight and no signal pending, the two tests send Polling to sleep over a task exactly when both lengths read 0 and one of them has wrapped around |
| Poller.WrapLosesWakeUp | internal/netpoll/epoll_optimized_poller.go:154-188 | runs that lose a wake-up: n urgent tasks posted while Polling runs another; it goes back to sleep over all of them exactly if n is a multiple of 2^32 |
| Poller.LengthLags | internal/netpoll/epoll_optimized_poller.go:181 | a reachable state in which a queue holds a task and its length, which IsEmpty reads, is 0 |
| Poller.TasksRunInOrder | internal/netpoll/epoll_optimized_poller.go:156-179 | in every state of every run the tasks of each queue have run in the order in which they were posted, none lost or repeated; when Polling waits or has stopped, all others are in the queue |
| Poller.OneRound | internal/netpoll/epoll_optimized_poller.go:154-180 | one round of chores, when nobody calls Trigger: in exactly three steps a task it runs every urgent task, and only then the first 256 of the low queue, or all if there are fewer, and gets to its store of 0; the rest stay queued |
| Poller.BlocksAfterNothing | internal/netpoll/epoll_optimized_poller.go:126-142 | in every run: Polling waits without a time limit exactly when epoll_wait last reported nothing, and looks again without blocking after anything else, its chores included |
| Poller.AloneStep | internal/netpoll/epoll_optimized_poller.go:124-188 | each step of Polling left to itself lowers a rank, unless it blocks with no signal pending |
| Poller.EveryTaskRuns | internal/netpoll/epoll_optimized_poller.go:124-188 | from every reachable state with no Trigger in flight, Polling left to itself runs every task posted, in order, within 30 steps a task and 25 more, and then blocks; given that no test has misread a length, and fewer than 2^32 tasks a queue |
| PollerQueues.ConsumerStays | internal/queue/lock_free_queue.go:131-148 | Polling being the only consumer of a queue, head stays where its Dequeue loaded it until it moves it itself |
| PollerQueues.NilAtEmpty | internal/queue/lock_free_queue.go:133-141 | so a nil it loads is of an empty queue, and will be returned |
| PollerQueues.TestAgrees | internal/queue/lock_free_queue.go:156-158 | IsEmpty of the real queue, in every reachable state of it, is the test Poller makes |
| PollerQueues.CallerSim | internal/netpoll/epoll_optimized_poller.go:91-117 | every atomic access of a Trigger or UrgentTrigger over the real queue, within Enqueue too, is a step of Poller's model or does not show there |
| PollerQueues.LoopSim | internal/netpoll/epoll_optimized_poller.go:119-188 | the same for every atomic access of Polling, within Dequeue too; PollerRuns.OneRound says what a round of them does |
| PollerQueues.Simulates | internal/netpoll/epoll_optimized_poller.go:91-188 | every run of Triggers and Polling over two real queues is, seen from outside the queues, a run of Poller's model |
| PollerQueues.NoLostWakeUp | internal/netpoll/epoll_optimized_poller.go:154-188 | no lost wake-up over the real queues: whenever Polling waits with no signal pending while a list holds a task, some Trigger that has linked its task has yet to CAS or to write; so when none is in flight both lists are empty; in every run in which no test reads 0 of a length that has wrapped around to it |
| PollerQueues.ShortListsAreRead | internal/netpoll/epoll_optimized_poller.go:181 | no test does, if there are fewer than 2^32 callers and each test is of a list of fewer than 2^32 tasks |
| PollerQueues.OneTokenAtMost | internal/netpoll/epoll_optimized_poller.go:91-188 | over the real queues, in every run: pending signals and Triggers about to write one are together at most wakeupCall, which is 0 or 1 |
| PollerQueues.TasksRunInOrder | internal/netpoll/epoll_optimized_poller.go:156-179 | over the real queues, in every state of every run: the tasks that have run are the first that were linked, in order; when Polling waits or has stopped, all others are in the list |
| PollerRuns.Realizes | internal/netpoll/epoll_optimized_poller.go:91-188 | the converse of Simulates: every run of Poller's model is what some run over the real queues shows |
| PollerRuns.OneRound | internal/netpoll/epoll_optimized_poller.go:154-180 | over the real queues, from every reachable state in which Polling has just been woken: within 39 atomic accesses a task, and 51 more, it runs every urgent task, and only then the first 256 of the low list, or all if there are fewer, and gets to its store of 0; the rest stay in the list |
| PollerRuns.AloneKeeps | internal/netpoll/epoll_optimized_poller.go:124-188 | each atomic access of Polling left to itself, within Dequeue too, lowers a rank, unless it blocks with no signal pending |
| PollerRuns.EveryTaskRuns | internal/netpoll/epoll_optimized_poller.go:124-188 | over the real queues: from every reachable state with no Trigger in flight, Polling left to itself runs every task linked, in order, within 390 atomic accesses a task and 337 more, and then blocks; given that no test has misread a length, and fewer than 2^32 tasks a list |
| PollerRuns.WrapLosesWakeUp | internal/netpoll/epoll_optimized_poller.go:154-188 | over the real queues: runs after which the list of urgent tasks holds n and Polling sleeps over them exactly if n is a multiple of 2^32 |
| Ring.Buffer.constructor | pkg/buffer/ring/ring_buffer.go:57-68 | an empty ring of the size CeilToPowerOfTwo gives; size 0 allocates nothing |
| Ring.Buffer.Peek | pkg/buffer/ring/ring_buffer.go:72-105 | the two slices together are the first n bytes (all for n <= 0), wherever the contents wrap around |
| Ring.Buffer.PeekAll | pkg/buffer/ring/ring_buffer.go:108-124 | the two slices together are the contents |
| Ring.Buffer.Discard | pkg/buffer/ring/ring_buffer.go:127-139 | drops exactly the first min(n, Buffered) bytes, none for n <= 0 |
| Ring.Buffer.Read | pkg/buffer/ring/ring_buffer.go:152-193 | copies the first min(len(p), Buffered) bytes out, in order and nowhere else, and drops them; the error is ErrIsEmpty exactly for a non-empty p and an empty ring |
| Ring.Buffer.ReadByte | pkg/buffer/ring/ring_buffer.go:196-210 | takes the first byte, or ErrIsEmpty |
| Ring.Buffer.Write | pkg/buffer/ring/ring_buffer.go:218-252 | appends all of p, across the end of the array or after growing; grows only when p does not fit, to a capacity bounded by the need, moving what was held once; a first write makes 1024 bytes, or what CeilToPowerOfTwo gives |
| Ring.Buffer.Append | pkg/buffer/ring/ring_buffer.go:229-251 | the copies of Write: the window of the array becomes the old contents followed by p |
| Ring.Buffer.WriteByte | pkg/buffer/ring/ring_buffer.go:255-268 | panics exactly when the ring is full and at least 4096 bytes long, where grow(1) does not enlarge it; appends the byte otherwise, and doubles a full ring below that length, or makes one of 1024 bytes |
| Ring.FullRingPanics | pkg/buffer/ring/ring_buffer.go:255-259 | a ring made with 4096 bytes, or a greater power of two up to 2^32, and filled: WriteByte panics |
| Ring.Buffer.Buffered | pkg/buffer/ring/ring_buffer.go:271-284 | the number of bytes held: full and empty are told apart when r = w |
| Ring.Buffer.Available | pkg/buffer/ring/ring_buffer.go:297-310 | Buffered + Available is the capacity |
| Ring.Buffer.IsFull | pkg/buffer/ring/ring_buffer.go:473-475 | true exactly when the contents fill a capacity above 0 |
| Ring.Buffer.All | pkg/buffer/ring/ring_buffer.go:318-341 | a copy of the contents, in order |
| Ring.Buffer.Reset | pkg/buffer/ring/ring_buffer.go:483-486 | empty, in the same array |
| Ring.Buffer.GrownCap | pkg/buffer/ring/ring_buffer.go:489-509 | the capacity grow chooses: the doubling and quarter steps stop at a capacity that meets Grown |
| Ring.Buffer.Grow | pkg/buffer/ring/ring_buffer.go:488-523 | keeps the contents, at the front of a new array; and the bytes moved by all the grows of a ring's life are at most five times its capacity, which Valid records for every later state |
| Ring.GrownBounds | pkg/buffer/ring/ring_buffer.go:488-523 | a ring that must grow to need ends up with a capacity between need and max(1024, 2 * need), at least 6/5 of the old one: 1024 or CeilToPowerOfTwo(need) if it had none, the double below 4096 bytes if that is enough, a quarter more above, need if that is more than the double |
| LinkedList.Buffer.Pop | pkg/buffer/linkedlist/linked_list_buffer.go:225-238 | takes the first chunk; list, tail, size and bytes stay right |
| LinkedList.Buffer.PushNodeFront | pkg/buffer/linkedlist/linked_list_buffer.go:241-254 | the node becomes the first chunk of an acyclic list; nil is ignored |
| LinkedList.Buffer.PushNodeBack | pkg/buffer/linkedlist/linked_list_buffer.go:257-270 | the node becomes the last chunk and the tail; nil is ignored |
| LinkedList.Buffer.PushFront | pkg/buffer/linkedlist/linked_list_buffer.go:65-73 | puts a copy of p before the contents |
| LinkedList.Buffer.PushBack | pkg/buffer/linkedlist/linked_list_buffer.go:76-84 | puts a copy of p behind the contents |
| LinkedList.Buffer.Read | pkg/buffer/linkedlist/linked_list_buffer.go:43-62 | copies the first min(len(p), Buffered) bytes out and drops exactly these, putting the rest of a chunk read in part back in front |
| LinkedList.Buffer.Discard | pkg/buffer/linkedlist/linked_list_buffer.go:128-148 | drops exactly the first min(n, Buffered) bytes |
| LinkedList.Buffer.Peek | pkg/buffer/linkedlist/linked_list_buffer.go:88-101 | the fewest whole chunks from the front that hold maxBytes, or all |
| LinkedList.Buffer.PeekWithBytes | pkg/buffer/linkedlist/linked_list_buffer.go:104-125 | the same of the given slices, empty ones left out, followed by the chunks |
| LinkedList.Buffer.Reset | pkg/buffer/linkedlist/linked_list_buffer.go:213-222 | empty, popping every node |
| LinkedList.CoverCovers | pkg/buffer/linkedlist/linked_list_buffer.go:88-125 | what the Peeks give is a prefix of the bytes, of min(maxBytes, all) bytes or more, and one chunk less would not do |
| LinkedList.DropBytesDrops | pkg/buffer/linkedlist/linked_list_buffer.go:128-148 | dropping chunk by chunk, and a part of the last, drops the first n bytes |
| ElasticRing.RingBuffer.Instance | pkg/buffer/elastic/elastic_ring_buffer.go:29-35 | there is a ring afterwards, the contents being the same |
| ElasticRing.RingBuffer.ReleaseIfEmpty | pkg/buffer/elastic/elastic_ring_buffer.go:45-50 | the ring is given back exactly when it is empty |
| ElasticRing.RingBuffer.Release | pkg/buffer/elastic/elastic_ring_buffer.go:38-43 | no ring is held |
| ElasticRing.RingBuffer.Peek | pkg/buffer/elastic/elastic_ring_buffer.go:54-59 | the first n bytes; the second slice is empty if the first is |
| ElasticRing.RingBuffer.Discard | pkg/buffer/elastic/elastic_ring_buffer.go:62-69 | drops the first min(n, Buffered) bytes; ErrIsEmpty exactly without a ring; a ring that is empty then is given back |
| ElasticRing.RingBuffer.Read | pkg/buffer/elastic/elastic_ring_buffer.go:82-89 | copies out and drops the first bytes; a ring that is empty then is given back |
| ElasticRing.RingBuffer.Write | pkg/buffer/elastic/elastic_ring_buffer.go:107-112 | appends all of p; the capacity stays if there is a ring with room |
| ElasticRing.RingBuffer.Reset | pkg/buffer/elastic/elastic_ring_buffer.go:199-204 | empty |
| Elastic.Buffer.New | pkg/buffer/elastic/elastic_ring_list_buffer.go:36-41 | ErrNegativeSize exactly for a size that is not positive; otherwise an empty buffer with that limit |
| Elastic.Buffer.Read | pkg/buffer/elastic/elastic_ring_list_buffer.go:44-53 | copies out and drops the first min(len(p), Buffered) bytes of ring then list; ErrIsEmpty exactly for an empty p without a ring |
| Elastic.Buffer.Peek | pkg/buffer/elastic/elastic_ring_list_buffer.go:56-65 | slices whose bytes are a prefix of the contents, of min(n, Buffered) bytes or more (n being 2^31 - 1 if it is not positive), and no slice more than that takes; the first is not empty unless the buffer is, and then there are none |
| Elastic.Buffer.Discard | pkg/buffer/elastic/elastic_ring_list_buffer.go:68-79 | drops exactly the first min(n, Buffered) bytes of ring then list; ErrIsEmpty exactly for n <= 0 without a ring |
| Elastic.Buffer.Write | pkg/buffer/elastic/elastic_ring_list_buffer.go:82-96 | appends all of p: nothing to the ring if the list is in use or the ring holds maxStaticBytes; otherwise all of it, or what there is room for if the ring is already so long, which then does not grow; so the list is begun only behind a ring that holds maxStaticBytes |
| Elastic.Buffer.Writev | pkg/buffer/elastic/elastic_ring_list_buffer.go:99-130 | appends all the slices in order: to the ring as many bytes as it has room for, up to maxStaticBytes if it is shorter, and none if the list is in use; a ring of at least maxStaticBytes does not grow |
| Elastic.Buffer.FillRing | pkg/buffer/elastic/elastic_ring_list_buffer.go:111-125 | its first loop: the ring gets exactly the bytes there is room for, and what is left of the slices is exactly what is not yet appended |
| Elastic.Buffer.Buffered | pkg/buffer/elastic/elastic_ring_list_buffer.go:152-154 | the number of bytes held by both |
| Elastic.Buffer.Empty | pkg/buffer/elastic/elastic_ring_list_buffer.go:157-159 | true exactly when both are empty |
| Elastic.Buffer.Reset | pkg/buffer/elastic/elastic_ring_list_buffer.go:162-168 | empty; a positive argument becomes maxStaticBytes |
| Elastic.Buffer.Release | pkg/buffer/elastic/elastic_ring_list_buffer.go:171-174 | empty, the ring given back |
| Outbound.StepKeeps | connection_unix.go:93-375 | any Write, writev or WriteFlush, and any of the four parts of a Close (drain, delete, close of the descriptor, release), which other calls may come between: whatever the kernel answers, every byte is kept in order, nothing is taken back from the wire, and while the descriptor is registered it is for write events if bytes are buffered; the lock is lost exactly in the cases Wedges lists |
| Outbound.StreamIsConserved | connection_unix.go:242-375 | over every such run: bytes sent, bytes lost on closing and bytes buffered are together exactly the data of the calls that returned, in order |
| Outbound.BytesArriveInOrder | connection_unix.go:242-375 | the same for a new connection; while it is open nothing is lost, and until a Close begins the descriptor is registered for write events exactly when bytes are buffered |
| Outbound.HeldIffACallHung | connection_unix.go:250-268 | a connection's write lock is held for ever exactly when some Write or writev of the run found the lock free and nothing buffered, and met a kernel error, a closed descriptor, no data, or more than 1024 slices: it then calls Close, which waits for that lock |
| Outbound.HeldForEver | connection_unix.go:106-123 | and then no later call that takes the lock returns or changes anything, and no byte moves |
| Outbound.ReleaseHangsIffACallHung | connection_unix.go:125-135 | a Close that has closed the descriptor hangs in its release exactly when such a call came before |
| Outbound.FlushTakes | connection_unix.go:339-375 | a WriteFlush for which the kernel has room sends exactly so many of the bytes offered, from the front, and keeps the others |
| Outbound.FlushErrors | connection_unix.go:357-365 | its error is the kernel's exactly when the write meets one, a closed descriptor included; ECONNRESET exactly when nothing is buffered; none otherwise |
| Outbound.FlushesDrain | connection_unix.go:336-375 | buffered bytes are not stranded: as many write events as bytes, each with room for one byte or more, send all of them in order and take the descriptor off write events |
| Outbound.WriteEventsKeepOpen | engine_unix.go:130-142 | in every reachable state, unless the kernel reports an error: while the descriptor is registered WriteFlush fails, which closes the connection, exactly when nothing is buffered; on a write event that is so only after a drain loop of a Close, and until then exactly the events other than write events make it fail |
| Outbound.WritesThatHang | connection_unix.go:249-268 | the first write to a connection leaves the lock held for ever exactly if it is of no data, or of more than 1024 slices, or meets an error |
| Outbound.WriteWhileClosingHangs | connection_unix.go:93-135 | a Write between the close of the descriptor and the release of a Close: both calls hang, although the lock was free when each began |
| Outbound.AcceptedButMinusOne | connection_unix.go:250-258 | a first write for which the kernel has no room: all of it is buffered, and -1 returned without an error |
| Outbound.ReplyMeans | connection_unix.go:242-330 | in every state: a Write or writev that returns gives the number of bytes it was passed, or -1 when nothing was buffered and the kernel had no room; ENOENT exactly when it left bytes in an empty buffer of a descriptor that is not registered; and puts on the wire what the kernel took, nothing if bytes were buffered before |
| Outbound.WriteEventWhileClosing | connection_unix.go:106-125 | between the drain loop of a Close and the poller's Delete a write event makes WriteFlush fail with ECONNRESET exactly when the loop sent all that was buffered |
| Connection.Conn.constructor | connection_unix.go:52-62 | nothing sent, nothing buffered, registered for read events, with the given limit to the ring of the buffer |
| Connection.Conn.Write | connection_unix.go:242-278 | does what Outbound.Accept says to wire, buffer and registration; returns len(data), or -1 exactly when nothing was buffered and the kernel had no room, and ENOENT exactly when it left bytes in an empty buffer of a descriptor that is not registered; never returns exactly when the lock is held afterwards |
| Connection.Conn.WriteDirect | connection_unix.go:249-277 | the same of the part in which nothing is buffered |
| Connection.Conn.Writev | connection_unix.go:280-332 | the same for a vector of slices, the one sent in part being cut in the caller's array |
| Connection.Trim | connection_unix.go:319-327 | the slices from pos on, the first of them cut in place, are exactly the bytes not sent |
| Connection.Conn.BufferRest | connection_unix.go:317-330 | exactly the bytes not sent, if any, are appended to the buffer, and write interest is armed; an error exactly when the descriptor is not registered |
| Connection.Conn.Send | connection_unix.go:339-357 | what is offered to the kernel, at most 1024 slices, is a non-empty prefix of what is buffered, if anything is |
| Connection.Conn.WriteFlush | connection_unix.go:336-375 | does what Outbound.Flush says, with all the bytes offered, up to 2^31 - 1, unless they are in more than 1024 slices; its error is the kernel's exactly when the write meets one, ECONNRESET exactly when nothing is buffered, and none otherwise |
| Connection.Conn.EventWrite | engine_unix.go:130-142 | a write event closes the connection exactly when its write meets an error or nothing is buffered, and changes no registration otherwise |
| Connection.Conn.Drain | connection_unix.go:109-124 | the part of Close with the lock: sends what is buffered up to the first write that fails |
| Connection.Conn.Delete | connection_unix.go:125 | the descriptor is registered for nothing |
| Connection.Conn.CloseFd | connection_unix.go:130 | the descriptor is closed |
| Connection.Conn.Release | connection_unix.go:93-104 | what is still buffered is dropped; or the call hangs, if the lock is held |
| Connection.Conn.Close | connection_unix.go:106-136 | with no other call in between: the four parts in order, never hanging if the lock was free, and the error of close(2) as the result; the bytes the drain loop sent are on the wire, the others lost, and nothing is buffered or registered |
| Framing.HeaderRoundTrip | glibevent.go:86-98 | decoding an encoded header gives bodyLen and msgId back, for all 32-bit values |
| Framing.HeaderRoundTripBack | glibevent.go:86-98 | encoding a decoded header gives its 8 bytes back |
| Framing.HeaderIsLittleEndian | glibevent.go:86-98 | the length in the first four bytes, then the message's number, least byte first, modulo 2^32 |
| Framing.DecodeAllOrNothing | glibevent.go:105-135 | a Decode takes one whole frame off the front of the buffer or nothing at all, except a lone header whose length is not positive, which it takes and gives to nobody |
| Framing.DecodeInTwo | engine_unix.go:155-163 | on a clean stream, decoding what has arrived and then what is left with what arrives later is decoding it all at once |
| Framing.FeedIsDecodeAll | engine_unix.go:144-163 | on a clean stream, any number of chunks |
| Framing.FeedSnoc | engine_unix.go:144-174 | each read event adds to the frames passed on so far those of what was left followed by what arrived: the runs of EventRead are the runs Feed describes |
| Framing.FramesArriveWhole | engine_unix.go:144-163 | however a stream of frames with non-empty bodies is cut into chunks, what has arrived gives exactly the frames it contains whole, in order, and leaves exactly the bytes after them |
| Framing.ChunkIndependentIffClean | glibevent.go:105-135 | the frames of a byte stream are the same for every way to cut it exactly when no header in it has a length that is not positive and bytes after it |
| Framing.DirtyCut | connection_unix.go:204-240 | otherwise: the cut after that header gives different frames |
| Framing.EmptyMessageDependsOnChunks | glibevent.go:105-135 | a message whose length is not positive, and one byte: one frame when they arrive together, none when they do not |
| Inbound.DefaultHead.Decode | glibevent.go:86-90 | the numbers whose first byte counts 1, the next 256, and so on, modulo 2^32, in the first and second four bytes, each left alone if it is not there |
| Inbound.DefaultHead.Encode | glibevent.go:92-98 | eight bytes, the least first of each field, that decode to the fields |
| Inbound.Conn.Peek | connection_unix.go:204-223 | the first n bytes, all for n <= 0; ErrShortBuffer exactly when there are fewer or none |
| Inbound.Conn.Discard | connection_unix.go:225-240 | drops n bytes; all of them for n <= 0 or when there are fewer |
| Inbound.Conn.Decode | glibevent.go:105-135 | refines Framing.Decode: the frame and what stays in the buffer |
| Inbound.Conn.ReadAll | connection_unix.go:158-176 | buffers everything the kernel has, in reads of at most 1024 bytes, in order |
| Inbound.Conn.DecodeLoop | engine_unix.go:155-163 | terminates, having passed on exactly the frames of Framing.DecodeAll and left its rest |
| Inbound.Conn.EventRead | engine_unix.go:144-174 | passes on the frames of what was left and what arrived; but none, whole or not, when the reads of the event end in an error or the end of the stream |
| Inbound.Conn.EventReceive | engine_unix.go:144-174 | without a decoder: passes on all that is buffered, if anything, and leaves it; nothing when the reads end in an error or the end of the stream |
| Inbound.EndOfStreamDropsFrames | connection_unix.go:158-175 | any whole frame of at most 1024 bytes that arrives in the same event as the end of the stream is passed to nobody |
| ByteSlicePool.IndexIsLeast | pkg/pool/byteslice/byteslice.go:78-80 | the class of n is the exponent of the least power of two that holds n bytes, below 2n; always below 32 |
| ByteSlicePool.PutClassIsGreatest | pkg/pool/byteslice/byteslice.go:65-76 | Put files a capacity under the greatest power of two within it: no underflow, never the last class |
| ByteSlicePool.PutUndoesGet | pkg/pool/byteslice/byteslice.go:44-76 | a slice from Get goes back to its class, except those over 2^30 bytes, which are never taken back |
| ByteSlicePool.Pool.Get | pkg/pool/byteslice/byteslice.go:44-62 | length n, capacity the least power of two that holds n; the bytes lie within one allocation, are not the pool's any more, and overlap no bytes that were somebody else's |
| ByteSlicePool.Pool.Put | pkg/pool/byteslice/byteslice.go:65-76 | files exactly that slice, also a suffix or one of odd capacity, and keeps that every pointer in class i has 2^i bytes, all its own; slices of capacity 0 or above MaxInt32 are not taken |
| RingPool.IndexIsFirst | pkg/pool/ringbuffer/ringbuffer.go:160-171 | the bucket of a ring, of 20, is the first whose size, 64 bytes and its doubles, holds its length, the last bucket taking all that is longer |
| RingPool.CalibrationCovers | pkg/pool/ringbuffer/ringbuffer.go:102-139 | buckets of at most the chosen maxSize had more than 95 of 100 of the calls counted, however the sort orders ties |
| RingPool.BucketsHold | pkg/pool/ringbuffer/ringbuffer.go:160-171 | for any rings put since the last calibration: the calls of the buckets of at most a bucket size are the rings no longer than it; all rings, if it is the greatest |
| RingPool.CalibrationCoversRings | pkg/pool/ringbuffer/ringbuffer.go:102-139 | so the rings no longer than the chosen maxSize are those calls, less the rings too long for any bucket if maxSize is the greatest size; and they were more than 95 of 100 rings exactly if more than 95 of 100 were no longer than the greatest bucket size |
| RingPool.TooLongIsNotKept | pkg/pool/ringbuffer/ringbuffer.go:102-139 | when all the rings counted are longer than that, every one of them is longer than the maxSize chosen |
| RingPool.CalibrationTakesFewest | pkg/pool/ringbuffer/ringbuffer.go:123-134 | any smaller number of buckets had at most 95 of 100 |
| RingPool.MaxSizeIsTaken | pkg/pool/ringbuffer/ringbuffer.go:119-134 | maxSize is the size of the largest of these most used buckets, and of no other |
| RingPool.ChosenSizes | pkg/pool/ringbuffer/ringbuffer.go:118-134 | both sizes are bucket sizes, the default that of a most used bucket and not above maxSize |
| RingPool.SumUpToPermutes | pkg/pool/ringbuffer/ringbuffer.go:116 | the calls of the buckets up to a size do not depend on the order the sort leaves them in |
| RingPool.Pool.Put | pkg/pool/ringbuffer/ringbuffer.go:88-100 | counts the ring in its bucket, calibrates at call 42001 of a bucket, and keeps the ring, emptied, exactly when no maxSize is set or it is not larger |
| RingPool.Pool.Calibrate | pkg/pool/ringbuffer/ringbuffer.go:102-139 | zeroes the counts and chooses the sizes from them |
| RingPool.Pool.Collect | pkg/pool/ringbuffer/ringbuffer.go:107-115 | the buckets, smallest first, with their counts, and the total |
| RingPool.Pool.Percentile | pkg/pool/ringbuffer/ringbuffer.go:118-134 | the greatest size among the buckets taken, one after the other, until they hold more than maxSum |
| PowerOfTwo.CeilPanics | internal/math/math.go:28-31 | CeilToPowerOfTwo panics exactly above 2^62 |
| PowerOfTwo.CeilExactly | internal/math/math.go:28-46 | for every int64 it accepts, the result is the least power of two >= n exactly when n >= 2 and n - 1 has no 32 zero bits in a row below its leading bit; so for all n from 2 to 2^32, and not for 2^32 + 1 |
| PowerOfTwo.FloorExactly | internal/math/math.go:49-61 | the result is the greatest power of two <= n exactly under the same condition on n |
| PowerOfTwo.ClosestExactly | internal/math/math.go:64-70 | for every int64: panics above 2^62; below, the result is a nearest power of two, ties upward, exactly when n is at most 2 or n - 1 has no such gap, except for the least int64 and that plus 2, whose subtraction overflows |
| PowerOfTwo.IsPowerOfTwoExactly | internal/math/math.go:23-25 | true of the powers of two, and of 0 and the least int64 |
| PowerOfTwo.SmearSpreads | internal/math/math.go:38-42 | after the five shifts a bit is set exactly when it or one of the 31 bits above it was |
| PowerOfTwo.SmearFills | internal/math/math.go:38-42 | all bits below the leading one are set exactly when there is no such gap |

## Left out

- Sockets, listeners, socket options, addresses, logging, options, epoll and kqueue system calls: I/O plumbing.
- The kqueue pollers, the default (non-optimized) pollers, connection_windows.go, client.go: the same logic again.
- Ring.Buffer.Write: does not model integer overflow in grow; arguments are at most 2^62 bytes, which no Go slice exceeds.
- Ring.Buffer.constructor: excludes sizes above 2^62, for which the source panics (PowerOfTwo.CeilPanics).
- Ring: ReadFrom, WriteTo, WriteString, Rewind and CopyFromSocket, and the corresponding methods of the other buffers.
- Elastic.Buffer.Write: takes at most 2^62 bytes, as the ring does.
- LinkedList: a node's bytes are a sequence, not an array from the byte-slice pool; slices given by a Peek are snapshots, so what happens to them when the bytes are discarded and their array is reused is not modelled. The scratch slice the Peeks fill is a value.
- LinkedList.Buffer.PushNodeFront: takes no node without bytes, which no caller passes.
- LinkedList.Buffer.PushNodeBack: takes no node without bytes, which no caller passes.
- ElasticRing.PoolGet: an empty ring of any capacity; what the pool keeps of a ring given back is modelled in RingPool only.
- Poller: eventfd write errors other than EAGAIN, after which Polling would retry its chores; the tasks themselves, which may only shut the engine down.
- Poller.NoLostWakeUp: supposes that no test misreads a length that has wrapped around; Poller.MisreadSleeps says what happens where one does. PollerQueues.NoLostWakeUp supposes the same.
- Poller.EveryTaskRuns: supposes that too, and fewer than 2^32 tasks a queue, and so does PollerRuns.EveryTaskRuns; the steps counted are those of Polling alone.
- QueueTheorems.WhenIsEmptyIsRight: supposes fewer than 2^32 tasks queued, because the 32-bit length wraps around.
- Connection.Conn.Write: the write lock is a flag that says whether it is held for ever; what a call does with the lock is one event, and what Close does without it is two more. A descriptor number that the system gives to another connection between the close and the release of a Close is not modelled.
- Connection.Conn.Delete: epoll_ctl is taken to succeed, except that ModReadWrite fails when the descriptor is not registered.
- Outbound: an error of write(2) with a positive count, which the kernel does not produce.
- Inbound.Conn.EventRead: does not model what the handler does with a frame.
- ByteSlicePool.Pool.Put: does not model a caller that puts bytes that are not its own, or that keeps using them.
- RingPool.Pool.Put: does not model concurrent calls, nor the uint64 width of the counts; the rings kept in the pool are not followed after they are put there. 95% is taken exactly and rounded down, not in floating point; the sort is an insertion sort, but what is proved of the choice holds of every order that sorts.
- Several long bodies of the source are split into methods that model a part each (a loop, a branch), named after what they do.
- gfd field packing, event list resizing, the connection table, uint2decimalStr, parseProtoAddr: easy members only.
