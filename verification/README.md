# Completion-ring echo server: a Dafny model

This project models the core of a small C++ networking study that compares two
styles of socket I/O on one host: readiness-based (epoll) and completion-based
(io_uring). The model covers three parts:

- **The completion-driven echo protocol** (`src/examples/echo_server.cc`).
  - The `IORequest` correlation token packs `{type, fd, client_id}` into the
    64-bit `user_data` of a ring entry (module `Token`).
  - The `CompletionCb` functor maps a state and a completion to a new state
    plus the ring entries to prepare, or to a fatal exit (module `Echo`).
  - `run_event_loop` bootstraps with one accept, then alternates one
    dispatch batch with one submit (module `Echo`).
  - The epoll peer's `get_mode` and `handle_echo` decisions (module
    `EpollPeer`).
- **The `Uring` wrapper** (`src/io/uring.hh`, `src/io/uring.cc`, module
  `Ring`). liburing is stated as an assumption:
  - a submission queue of at most `io_uring_size_` prepared entries;
  - a log of the entries handed to the kernel;
  - the list of completions posted and not yet marked seen.

  Each library return value is a parameter. The wrapper's own logic is what
  gets proved: the `prepare_*` results, the `submit` results, the
  single-registration event fd, the constructor's checks, and the batch
  dispatch loop of `for_every_completion`.
- **`Result<T, E>`** (`src/lib/result.hh`, module `ResultLib`): the
  Pending/Ok/Err sum type with its combinators, accessors and equality
  operators.

Module `Prelude` holds what they share:
- the machine widths (`U16`, `U32`, `U64`, `I32`, `Byte`);
- `static_cast<uint16_t>` and the wrapping `uint32_t` increment;
- `Option`;
- `Exit`, the outcome of a call that may end the process. It stands for
  `log::expects` failing (exit 1) and for `std::terminate`.

Everything is a pure function over immutable datatypes. The two loops are
methods: `Ring.ForEveryCompletion` (the dispatch batch) and
`Echo.RunEventLoop`. Each one's contract is tied to a recursive reference
definition or to an invariant.

Each operation is modelled as the code is written. Where the code is
evidently wrong, a corrected variant sits beside the written one (see
"## Findings"), and both are proved about. The model follows the code in
these places, which are easy to misread:
- Only a completion result of exactly -1 is fatal in the callback. Other
  negative results fall through. An accept completion of -24 still queues a
  read on descriptor -24, appends a buffer and counts a client. A write
  completion with any result other than -1 re-arms a read.
- `for_every_completion` treats only a wait result of -1 as fatal. A
  negative errno result such as -4 falls through to the peek.
- Ring entries can be dropped silently. The callback discards every
  `prepare_*` result, so when the submission queue is full, the re-armed
  accept and the read are lost (`Echo.AcceptDispatch`).
- The token's `fd` field keeps only the low 16 bits of the descriptor. The
  post-accept read uses the full descriptor; the later write, re-read and
  shutdown use the narrowed one.

## Model

| member | source | states |
|---|---|---|
| Prelude.ToU16 | src/examples/echo_server.cc:203 | narrowing keeps a descriptor below 2^16 unchanged and otherwise keeps its value modulo 2^16 |
| Prelude.IncU32 | src/examples/echo_server.cc:207 | `++num_clients` adds one below 2^32 - 1 and wraps to 0 at the top |
| ResultLib.ExactlyOneState | src/lib/result.hh:903-937 | exactly one of `is_pending`, `is_ok`, `is_error` holds; `operator bool` is `!is_pending` |
| ResultLib.Convert | src/lib/result.hh:295-338 | the converting constructor keeps the state and converts the payload |
| ResultLib.Move | src/lib/result.hh:340-345 | move construction takes the source's state and leaves the source Pending |
| ResultLib.MoveAssign | src/lib/result.hh:347-352 | move assignment leaves the source Pending; a distinct target takes the source's former state, while a self-move leaves the object Pending |
| ResultLib.SelfMoveAssignEmpties | src/lib/result.hh:347-352 | `r = std::move(r)` empties a settled `r`, while a move to another result keeps the value, as move construction does |
| ResultLib.Reset | src/lib/result.hh:784-788 | `reset` (and assigning `Pending`) yields Pending |
| ResultLib.Emplace | src/lib/result.hh:707-721 | `emplace` turns any state into Ok holding the new value; assigning an `Ok` (result.hh:365-380) does the same, so it is this member too |
| ResultLib.AssignErr | src/lib/result.hh:382-397 | assigning an `Err` turns any state into Err holding the new error |
| ResultLib.Swap | src/lib/result.hh:975-979 | `swap` exchanges the two states |
| ResultLib.SwapTwiceRestores | src/lib/result.hh:1030-1038 | swapping twice restores both results |
| ResultLib.Map | src/lib/result.hh:439-486 | `map` applies f to an Ok value; Pending and Err pass through unchanged |
| ResultLib.MapFunctorLaws | src/lib/result.hh:439-486 | mapping the identity is the identity, and two maps fuse into one |
| ResultLib.MapErr | src/lib/result.hh:529-579 | `map_err` applies f to an Err error; Pending and Ok pass through unchanged |
| ResultLib.MapCommutesWithMapErr | src/lib/result.hh:547-579 | `map` and `map_err` commute |
| ResultLib.MapOrElse | src/lib/result.hh:488-527 | f of the value, fallback of the error, termination on Pending |
| ResultLib.AndThen | src/lib/result.hh:581-621 | continues with f on Ok, keeps the error on Err, terminates on Pending |
| ResultLib.AndThenMonadUnits | src/lib/result.hh:606-621 | `Ok(x).and_then(f)` is `f(x)`; and_then with `Ok` returns any settled result unchanged |
| ResultLib.OrElse | src/lib/result.hh:623-663 | recovers with f on Err, keeps the value on Ok, terminates on Pending |
| ResultLib.OrElseMonadUnits | src/lib/result.hh:648-663 | `Err(e).or_else(f)` is `f(e)`; or_else with `Err` returns any settled result unchanged |
| ResultLib.Contains | src/lib/result.hh:669-685 | `contains(x)` holds iff the result is Ok holding x |
| ResultLib.ContainsErr | src/lib/result.hh:687-705 | `contains_err(x)` holds iff the result is Err holding x |
| ResultLib.ValueOr | src/lib/result.hh:723-747 | `value_or(d)` is the Ok content, and d for Err and Pending |
| ResultLib.ValueOrElse | src/lib/result.hh:749-782 | the Ok content, f of the error, termination on Pending |
| ResultLib.Value | src/lib/result.hh:790-840 | `value()` and `expect()` return the Ok content and terminate on any other state |
| ResultLib.Error | src/lib/result.hh:842-892 | `error()` and `expect_err()` return the Err content and terminate on any other state |
| ResultLib.TakeValue | src/lib/result.hh:817-825 | `take_value` requires Ok, returns the value and leaves Pending |
| ResultLib.TakeError | src/lib/result.hh:869-877 | `take_error` requires Err, returns the error and leaves Pending |
| ResultLib.EmplaceThenTake | src/lib/result.hh:707-721 | taking the value of an emplaced result returns what was emplaced and leaves Pending |
| ResultLib.AssignErrThenTake | src/lib/result.hh:382-397 | taking the error of a result just assigned an `Err` returns that error and leaves Pending |
| ResultLib.EqResult | src/lib/result.hh:1043-1054 | `Result == Result` as written terminates exactly when neither side is Err and one is Pending, and returns true for Ok against Err |
| ResultLib.EqResultCases | src/lib/result.hh:1040-1054 | `Result == Result` as written: values on Ok/Ok, errors on Err/Err, true on Ok/Err, false on Pending/Err, termination exactly when neither side is Err and one is Pending |
| ResultLib.EqResultOkErrIsTrue | src/lib/result.hh:1043-1054 | `Ok(1) == Err(2)` returns true; `Pending == Pending` and `Ok == Pending` terminate |
| ResultLib.EqResultFixed | src/lib/result.hh:1043-1054 | the intended equality holds iff both sides have the same state and payload |
| ResultLib.EqResultAgreesWhenItReturns | src/lib/result.hh:1043-1054 | outside Ok-against-Err, whenever the written operator returns it agrees with the intended one |
| ResultLib.NeResult | src/lib/result.hh:1056-1061 | `!=` negates `==` and terminates exactly when `==` does |
| ResultLib.EqOk | src/lib/result.hh:1065-1072 | `Result == Ok(v)` as written terminates exactly when the left side is not Ok, and otherwise holds iff it is Ok holding v; the reversed `Ok == Result` (1081-1087) forwards to it, and both `!=` overloads (1074-1079, 1089-1095) negate it |
| ResultLib.EqOkTerminatesUnlessOk | src/lib/result.hh:1063-1072 | `Result == Ok(v)` as written terminates on every non-Ok left side and compares values on Ok |
| ResultLib.EqOkFixed | src/lib/result.hh:1065-1072 | the intended `Result == Ok(v)` holds iff the result is Ok holding v |
| ResultLib.EqErr | src/lib/result.hh:1097-1127 | `Result == Err(e)` holds iff the result is Err holding e |
| ResultLib.MapExamples | src/lib/result.hh:447-546 | `Ok(2).map(+1)` is `Ok(3)`; `Ok(2).map_err(+1)` has no error; `Err(3).map_err(+1)` is `Err(4)` |
| ResultLib.MapOrElseExamples | src/lib/result.hh:497-511 | the documented `map_or_else` results 2 and 42 |
| ResultLib.AndThenExamples | src/lib/result.hh:589-605 | the four documented `and_then` chains, e.g. `Ok(2).and_then(sq).and_then(sq) == Ok(16)` |
| ResultLib.OrElseExamples | src/lib/result.hh:631-647 | the four documented `or_else` chains, e.g. `Err(3).or_else(sq).or_else(err) == Ok(9)` |
| ResultLib.AccessorExamples | src/lib/result.hh:669-767 | the documented `contains`, `contains_err`, `value_or`, `value_or_else` and `emplace` assertions |
| ResultLib.EqualityTestScenario | src/lib/tests/result_test.cc:8-29 | `Ok(10)` compares equal with `Ok(10)`, and `Err("oops")` with its error |
| Token.Code | src/examples/echo_server.cc:164-169 | accept, read and write have the distinct codes 0, 1 and 2 |
| Token.KindOf | src/examples/echo_server.cc:189-191 | a type byte names a request type iff it is 0, 1 or 2, and it names the one with that code |
| Token.Unpack | src/examples/echo_server.cc:186-189 | a word unpacks to a request exactly when its type byte is valid |
| Token.Pack | src/examples/echo_server.cc:171-180 | the packed word's type byte is the request type's code and its padding byte is zero |
| Token.PackFields | src/examples/echo_server.cc:171-180 | the packed word is below 2^64; type, fd and client id each sit in their own bit range; padding is zero |
| Token.UnpackPack | src/examples/echo_server.cc:171-188 | round trip: unpacking a packed request returns the same type, fd and client id |
| Token.PackUnpack | src/examples/echo_server.cc:171-188 | a word packs back to itself after unpacking iff its type byte is valid and its padding byte is zero |
| Token.PackInjective | src/examples/echo_server.cc:171-180 | distinct requests get distinct tokens |
| Ring.SetupFlags | src/io/uring.cc:22-33 | the `sq_polling` feature sets the SQPOLL bit, and no other bit is ever set |
| Ring.Create | src/io/uring.cc:19-38 | missing FAST_POLL is fatal, checked before the init result; failed init is fatal; a new ring has the given capacity, a batch buffer of that length, an empty queue and no event fd |
| Ring.IsEventFdRegistered | src/io/uring.cc:59-62 | an event fd is registered exactly when `event_fd_` is not -1 |
| Ring.RegisterEventFd | src/io/uring.cc:45-51 | registering while registered is fatal; a library failure is fatal; success stores and returns the new descriptor, registered iff it is not -1 |
| Ring.UnregisterEventFd | src/io/uring.cc:53-57 | a library failure is fatal; success leaves `event_fd_ == -1`, so nothing is registered |
| Ring.SingleRegistration | src/io/uring.cc:45-62 | a second registration with no unregistration between always ends the process |
| Ring.UnregisterAllowsRegister | src/io/uring.cc:53-62 | after a successful unregistration, registration succeeds again |
| Ring.Prepare | src/io/uring.cc:84-173 | every `prepare_*` returns failed and queues nothing when the queue is full; otherwise it queues one entry carrying `user_data` unchanged and returns ok; it never returns busy |
| Ring.PrepareAll | src/examples/echo_server.cc:194-206 | preparing entries while discarding the results queues the entries that fit, in order, drops the rest, and changes nothing else |
| Ring.Submit | src/io/uring.cc:175-180 | ok when the library result is at least 0, busy exactly on -EBUSY, fatal on any other negative result; ok hands the first n queued entries to the kernel |
| Ring.SubmitConservesEntries | src/io/uring.cc:175-180 | submitting loses, duplicates and reorders no entry |
| Ring.PeekCount | src/io/uring.cc:75 | a batch holds at most `io_uring_size_` completions, and all posted ones if fewer |
| Ring.PeekBatch | src/io/uring.cc:75 | the batch has `PeekCount` entries, and it followed by the completions left posted is the whole posted queue |
| Ring.Peek | src/io/uring.cc:75 | the batch buffer keeps its length, and its first entries are the batch in order |
| Ring.MarkSeen | src/io/uring.cc:80 | `io_uring_cqe_seen` releases the oldest posted completion and nothing else |
| Ring.DispatchOne | src/io/uring.cc:78-80 | fatal exactly when the callback is; the state is the callback's; the oldest posted completion is released; when that completion is the one dispatched, the trace gains its callback and then its release |
| Ring.DispatchBatch | src/io/uring.cc:76-81 | reference definition of a batch: per completion, callback, prepare, release; it stops at the first fatal callback; ring validity is kept |
| Ring.DispatchFatalSticky | src/io/uring.cc:76-81 | once a callback has ended the process, the rest of the batch changes nothing |
| Ring.DispatchStep | src/io/uring.cc:76-81 | one more completion extends the batch by one dispatch and the trace by one callback-then-release pair |
| Ring.TraceOf | src/io/uring.cc:76-81 | a batch of n completions gives a trace of 2n events |
| Ring.TraceOfIndex | src/io/uring.cc:76-81 | event 2i invokes the callback with completion i's token and result; event 2i+1 is the release of that completion, read off the posted queue |
| Ring.ForEveryCompletion | src/io/uring.cc:64-82 | a wait of -1 is fatal; otherwise the loop equals the reference batch dispatch, releases exactly the batch, keeps capacity and event fd, and its trace is one callback-then-release per completion |
| Ring.DispatchOrder | src/io/uring.cc:76-81 | the callback runs once per completion in peek order with token and result unchanged, each completion released right after |
| Echo.PreSized | src/examples/echo_server.cc:248-249 | a fresh callback has no clients, n zeroed buffers and no shut-down descriptors |
| Echo.InitialAsWritten | src/examples/echo_server.cc:248-249 | as constructed, the deque starts with `max_events` buffers and `num_clients` is 0 |
| Echo.Initial | src/examples/echo_server.cc:248-249 | the corrected start has an empty deque and `num_clients` 0 |
| Echo.OnCompletion | src/examples/echo_server.cc:186-242 | fatal exactly when a valid token completes with -1; buffers and shut-down descriptors are append-only; at most two entries are queued |
| Echo.UnknownTokenIgnored | src/examples/echo_server.cc:189-241 | a token whose type byte names no request type changes nothing and queues nothing |
| Echo.AcceptCompletion | src/examples/echo_server.cc:191-208 | an accept that is not -1 queues a new accept (client id = old count, fd 0), appends one buffer, queues a `max_message_size` read of that buffer on fd `result` (token: read, the fd narrowed, old count), and adds one to the count |
| Echo.ReadCompletion | src/examples/echo_server.cc:210-224 | a positive read queues one write of exactly `result` bytes from buffer `client_id`, keeping fd and client id; zero or another negative queues nothing and shuts the fd down |
| Echo.WriteCompletion | src/examples/echo_server.cc:226-240 | a write that is not -1 queues one `max_message_size` read into buffer `client_id` on the same fd and client id |
| Echo.QueuedTokensWellFormed | src/examples/echo_server.cc:194-237 | every queued entry's token unpacks to a request whose type matches the entry's operation |
| Echo.InitialInv | src/examples/echo_server.cc:248-249 | a fresh callback satisfies the deque/count invariant |
| Echo.OnCompletionPreservesInv | src/examples/echo_server.cc:201-207 | every completion keeps: deque size = initial size + accepts, `num_clients` = accepts mod 2^32, every buffer full-sized |
| Echo.AcceptReadSlot | src/examples/echo_server.cc:201-205 | the post-accept read fills buffer `p + num_clients`; the client's id is `num_clients`; the two match iff the deque starts empty (p = 0) |
| Echo.QueuedSlotsInRange | src/examples/echo_server.cc:201-235 | for a token minted by the callback, every queued read or write names an existing buffer |
| Echo.ClientCountMonotone | src/examples/echo_server.cc:196-207 | below the wrap point, `num_clients` never decreases and rises by at most one |
| Echo.KernelRead | src/examples/echo_server.cc:205 | a completed read overwrites the front of its buffer with the received bytes and leaves every other buffer alone |
| Echo.FirstEchoReply | src/examples/echo_server.cc:191-218 | the first echo on a new connection is as long as the payload |
| Echo.FirstEchoAsWritten | src/examples/echo_server.cc:199-218 | with the deque pre-sized as written, the first echo sends zero bytes instead of the payload |
| Echo.FirstEchoCorrected | src/examples/echo_server.cc:199-218 | with the deque starting empty, the first echo returns exactly the payload |
| Echo.FirstEchoOfHi | src/examples/echo_server.cc:199-218 | client 0 sending "hi" gets two zero bytes as written, and "hi" with the correction |
| Echo.AcceptDispatch | src/examples/echo_server.cc:194-206 | through the ring, an accept completion queues both the new accept and the read when two slots are free, and neither when the queue is full |
| Echo.DispatchPreservesInv | src/examples/echo_server.cc:265-268 | a whole dispatch batch keeps the callback invariant |
| Echo.Bootstrap | src/examples/echo_server.cc:259-264 | the bootstrap is fatal exactly when the submit is; the ring keeps capacity and posted completions |
| Echo.BootstrapSubmitsOneAccept | src/examples/echo_server.cc:259-264 | on a fresh ring, exactly one accept tagged (accept, fd 0, client 0) reaches the kernel |
| Echo.RoundSpec | src/examples/echo_server.cc:265-269 | one iteration: a wait of -1 is fatal; otherwise the peeked batch is dispatched through the callback and then submitted; it dispatches `PeekCount` completions (at most `io_uring_size_`), reports busy iff -EBUSY, and keeps the ring's capacity |
| Echo.RoundPreservesInv | src/examples/echo_server.cc:265-269 | a loop iteration keeps the callback invariant |
| Echo.LoopSpec | src/examples/echo_server.cc:265-269 | the loop over the supplied rounds, stopping at the first fatal one; one log entry per round; the ring keeps its capacity |
| Echo.LoopSpecStep | src/examples/echo_server.cc:265-269 | a returning loop is the loop over its earlier rounds followed by one iteration on the last |
| Echo.LoopFatalSticky | src/examples/echo_server.cc:265-269 | once a round has ended the process, later rounds change nothing |
| Echo.LoopLog | src/examples/echo_server.cc:265-269 | log entry k belongs to round k: at most `io_uring_size_` completions, busy iff that round's submit said -EBUSY |
| Echo.LoopPreservesInv | src/examples/echo_server.cc:265-269 | every round keeps the callback invariant |
| Echo.EventLoop | src/examples/echo_server.cc:256-270 | `run_event_loop` for a deque pre-sized with p buffers: bootstrap, then the rounds; a failed bootstrap submit is fatal |
| Echo.EventLoopInv | src/examples/echo_server.cc:248-270 | from either pre-size (p = `max_events` as written, p = 0 corrected), the loop keeps the callback invariant |
| Echo.RunRound | src/examples/echo_server.cc:265-269 | one iteration, `for_every_completion` then `submit`, equals the reference iteration and keeps the invariant |
| Echo.RunEventLoop | src/examples/echo_server.cc:256-270 | the loop equals the reference `run_event_loop` for the given pre-size; the log fits the rounds even when a round is fatal; the invariant holds at the end |
| EpollPeer.GetMode | src/examples/echo_server.cc:146-159 | "epoll" selects epoll, "io_uring" selects io_uring, any other string is fatal |
| EpollPeer.Receive | src/examples/echo_server.cc:71 | a receive overwrites the front of the shared buffer and leaves the stale rest |
| EpollPeer.CString | src/examples/echo_server.cc:83 | the string `strcmp` reads is the buffer's prefix up to its first NUL |
| EpollPeer.ByeAsWritten | src/examples/echo_server.cc:83 | the written stop test only fires after exactly 4 bytes whose buffer starts with "bye\n" |
| EpollPeer.ByeAsWrittenNeedsNul | src/examples/echo_server.cc:82-86 | the written stop test holds iff 4 bytes arrived, they are "bye\n", and the stale byte after them is NUL |
| EpollPeer.ByeAfterLongerMessage | src/examples/echo_server.cc:82-86 | "bye\n" received after "hello!\n" does not stop the loop as written |
| EpollPeer.IsBye | src/examples/echo_server.cc:82-86 | the intended stop test: exactly the four received bytes are "bye\n" |
| EpollPeer.IsByeIgnoresStaleBytes | src/examples/echo_server.cc:82-86 | whatever the buffer held before, the intended test fires iff the message is "bye\n" |
| EpollPeer.HandleEcho | src/examples/echo_server.cc:69-89 | zero or fewer bytes: remove interest, then shut down, keep running; more: receive into the shared buffer, send the bytes (fatal if send is -1), and stop iff 4 bytes arrived and the buffer's NUL-terminated string is "bye\n" |
| EpollPeer.HandleEchoFixed | src/examples/echo_server.cc:69-89 | the same handler with the intended stop test: stop iff the message received is "bye\n" |
| EpollPeer.HandleEchoAgreesWhenNul | src/examples/echo_server.cc:82-86 | the written and intended handlers agree whenever the byte after a four-byte message is NUL |
| EpollPeer.HandleEchoByeAfterHello | src/examples/echo_server.cc:82-86 | after "hello!\n", "bye\n" keeps the written handler running and stops the intended one |
| EpollPeer.CloseDeregistersFirst | src/examples/echo_server.cc:73-78 | on close, the interest is removed before the shutdown and nothing is sent |

## Findings

| source | as written | input that shows it | evidently intended | confidence | as-written member | corrected member |
|---|---|---|---|---|---|---|
| src/lib/result.hh:1043-1054 | Ok against Err falls to `is_pending() == is_pending()`, which is true. Pending against Ok or Pending calls `error()`, which terminates. | `Ok(1) == Err(2)` is true; `Pending == Pending` terminates | equal iff same state and same payload | high; not executed | `ResultLib.EqResultOkErrIsTrue` | `ResultLib.EqResultFixed` |
| src/lib/result.hh:1065-1072 | `lhs.value()` is evaluated for a diagnostic line before the `is_ok()` test, so a non-Ok left side terminates | `Err(1) == Ok(1)` terminates instead of returning false | `is_ok() && value() == v` | high; not executed | `ResultLib.EqOkTerminatesUnlessOk` | `ResultLib.EqOkFixed` |
| src/examples/echo_server.cc:201-218 | the deque starts with `max_events` buffers (line 248). Client id's first read fills buffer `max_events + id`, but the echo write sends buffer `id` | client 0 sends "hi" on a fresh server: the reply is two zero bytes | each client uses one buffer, at index `client_id` | high; not executed | `Echo.FirstEchoAsWritten` | `Echo.FirstEchoCorrected` |
| src/examples/echo_server.cc:83 | `strcmp` reads the shared buffer up to a NUL, and byte 4 is stale from an earlier, longer message | "hello!\n" then "bye\n": the loop keeps running | compare exactly the four received bytes with "bye\n" | high; not executed | `EpollPeer.HandleEchoByeAfterHello` | `EpollPeer.HandleEchoFixed` |

The written and the corrected versions stand side by side:
- `Echo.EventLoop` and `Echo.RunEventLoop` take the deque's pre-size as a
  parameter. `max_events` gives the server as written (`Echo.InitialAsWritten`),
  and 0 gives the corrected one (`Echo.Initial`).
- `EpollPeer.HandleEcho` stops on the written test `EpollPeer.ByeAsWritten`.
  `EpollPeer.HandleEchoFixed` stops on `EpollPeer.IsBye`.
- `ResultLib.EqResult` and `ResultLib.EqOk` are the written operators, and
  `ResultLib.EqResultFixed` and `ResultLib.EqOkFixed` the intended ones.

For client ids of `max_events` and above, the written server's first echo
does not send zeros. It sends buffer `id`, which is the buffer another client
(`id - max_events`) received into. `Echo.AcceptReadSlot` gives the general
slot arithmetic.

## Left out

- Token.Pack: the C++ initialisers leave the padding byte (bits 8-15) of the
  `IORequest` union unspecified, while `Token.Pack` sets it to zero. The real
  `user_data` word may therefore differ from `Pack` in that byte. No
  behaviour depends on it, because unpacking never reads that byte.
- ResultLib.Move: models move construction only. Move assignment, including
  self-move-assignment, which leaves the object Pending, is
  `ResultLib.MoveAssign`. Whether two references name the same object is
  given as a flag, because the model has no object identity.
- liburing and the kernel are assumptions, not code. The model leaves out:
  - liburing's rounding of ring sizes to a power of two;
  - the completion queue being larger than the submission queue;
  - SQPOLL's effect on submission.

  The submission queue holds `io_uring_size_` entries. The kernel posts
  completions as an arbitrary input per loop round. Posted completions need
  not match submitted entries. The per-descriptor ordering guarantee is not
  modelled.
- `io_uring_wait_cqe` blocking, and its write into `cqes_[0]`, are left out.
  The wait is a result parameter, and the peek overwrites that slot anyway.
  The commented-out event-fd draining is not modelled.
- `Uring::~Uring` only releases kernel resources, so there is nothing to
  state about it.
- The `prepare_*` calls take memory addresses: socket-address structures,
  iovec arrays and the data buffer. These are modelled only as a buffer
  index and a vector count. What lies at those addresses is the kernel's
  business.
- `run_event_loop` loops forever. `Echo.RunEventLoop` runs it for any finite
  sequence of rounds the environment supplies.
- Buffer contents are modelled only for the first echo on a connection
  (`Echo.FirstEchoReply`). The general echo-equality property over every
  message is not stated.
- The epoll event loop is left out because it is driven entirely by
  syscalls: `setup_epoll`, `handle_new_connection`, `run_event_loop`
  (echo_server.cc:40-67, 91-118). Its per-event decision is modelled in
  `EpollPeer.HandleEcho`. Also left out:
  - `setup_server_socket`;
  - `main`: argument parsing, exit status 0 on missing arguments, and the
    scope-guard cleanup;
  - the unused `ready_to_stop` field.
- `strcmp` reading past the end of the shared buffer when it holds no NUL is
  undefined behaviour. `EpollPeer.CString` stops at the buffer's end instead.
- From `result.hh`, the model leaves out:
  - the stderr diagnostics;
  - the duplicated lvalue/rvalue/const overloads (each operation is modelled
    once);
  - `Ok<T>`/`Err<E>` accessors, `into()` and their own comparison operators.
    These are plain value comparisons, which Dafny's datatype equality
    already gives.
  - `result.inl`, which is not part of this model.

  The `map_or_else` doc example passes a fallback that takes no argument,
  but the code calls the fallback with the error. `ResultLib.MapOrElseExamples`
  uses a fallback that ignores its argument.
- `lib/log`, `lib/function.hh`, `lib/scope_guard.hh` and `lib/concepts.hh`
  are left out:
  - `log::expects` is modelled as `Exit.Fatal`.
  - Callbacks are plain Dafny functions.
  - The other two have no runtime behaviour to state.
- The demo programs `kernel_side_polling.cc`, `event_fd.cc` and `dead_fd.cc`
  are left out because they depend on threads, sleeps and kernel-specific
  epoll behaviour.
