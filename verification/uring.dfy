/**
 The `Uring` wrapper of src/io/uring.hh and src/io/uring.cc.

 liburing itself is not modelled: it is an assumption, stated here as an
 abstract ring with a submission queue of at most `size` prepared entries,
 a log of the entries already handed to the kernel, and the list of
 completions the kernel has posted and the program has not yet marked seen.
 Each library call's return value (`io_uring_queue_init_params`,
 `io_uring_submit`, `io_uring_wait_cqe`, `io_uring_register_eventfd`, ...)
 is a parameter. What the wrapper itself decides from those values is what
 is modelled and proved.
 */
module Ring {
  import opened Prelude

  datatype UringResult = Ok | Busy | Failed

  datatype UringFeature = SqPolling

  /** `IORING_SETUP_SQPOLL` and `IORING_FEAT_FAST_POLL` of the kernel ABI. */
  const SetupSqPoll: bv32 := 0x2
  const FeatFastPoll: bv32 := 0x20

  /** `EBUSY` on Linux. */
  const EBusy: int := 16

  const FastPollMissing := "IORING_FEAT_FAST_POLL not available in the kernel, quiting."
  const InitFailed := "unable to initialize io_uring."
  const Reregister := "attempt to reregister event fd"
  const RegisterFailed := "unable to register eventfd."
  const UnregisterFailed := "unable to unregister eventfd"
  const WaitFailed := "wait_cqe ended with -1."
  const SubmitFailed := "unable to submit io_uring queue entries"

  /**
   The operation an entry asks for. Buffers are named by `slot`, the index of
   the caller-owned buffer the address refers to; socket-address and iovec
   arguments are not modelled.
   */
  datatype RingOp =
    | AcceptOp(fd: int)
    | ConnectOp(fd: int)
    | ReadvOp(fd: int, nrVecs: U32, offset: int)
    | WritevOp(fd: int, nrVecs: U32, offset: int)
    | ReadOp(fd: int, slot: nat, numBytes: U32, offset: int)
    | WriteOp(fd: int, slot: nat, numBytes: U32, offset: int)
    | CloseOp(fd: int)

  /** A submission entry: the operation and the opaque token returned with its completion. */
  datatype Sqe = Sqe(op: RingOp, userData: U64)

  /** A completion entry: the token of the operation and its int32 result. */
  datatype Cqe = Cqe(userData: U64, res: I32)

  datatype Uring = Uring(
    size: U32,                 // io_uring_size_, fixed at construction
    setupFlags: bv32,          // params.flags passed to the library
    sq: seq<Sqe>,              // prepared, not yet submitted
    submitted: seq<Sqe>,       // handed to the kernel, in submission order
    cq: seq<Cqe>,              // posted by the kernel, not yet marked seen
    cqes: seq<Option<Cqe>>,    // cqes_, the reusable batch buffer
    eventFd: int)              // event_fd_, -1 when none is registered

  /** What every wrapper state satisfies: the batch buffer has `size` slots and the queue never exceeds `size`. */
  predicate Valid(u: Uring) {
    |u.cqes| == u.size as int && |u.sq| <= u.size as int
  }

  predicate IsEventFdRegistered(u: Uring) {
    u.eventFd != -1
  }

  ////////////////////////////////////////////////////////////////////////////
  // Construction
  ////////////////////////////////////////////////////////////////////////////

  /** The flags the constructor's loop over `features` ORs into the zeroed params. */
  function SetupFlags(features: seq<UringFeature>): (flags: bv32)
    ensures (flags & SetupSqPoll != 0) <==> SqPolling in features
    ensures flags & !SetupSqPoll == 0
  {
    if |features| == 0 then 0 as bv32
    else
      var rest := SetupFlags(features[..|features| - 1]);
      assert features == features[..|features| - 1] + [features[|features| - 1]];
      match features[|features| - 1]
      case SqPolling => rest | SetupSqPoll
  }

  /**
   The constructor. `kernelFeatures` is the `features` word the library filled
   in, `initRes` its return value. The FAST_POLL check comes first, so a kernel
   without it is reported as such even when initialisation failed too.
   */
  function Create(size: U32, features: seq<UringFeature>, kernelFeatures: bv32, initRes: int): (r: Exit<Uring>)
    ensures kernelFeatures & FeatFastPoll == 0 ==> r == Fatal(FastPollMissing)
    ensures kernelFeatures & FeatFastPoll != 0 && initRes != 0 ==> r == Fatal(InitFailed)
    ensures r.Returns? <==> kernelFeatures & FeatFastPoll != 0 && initRes == 0
    ensures r.Returns? ==> Valid(r.value) && r.value.size == size
    ensures r.Returns? ==> !IsEventFdRegistered(r.value)
    ensures r.Returns? ==> r.value.sq == [] && r.value.submitted == [] && r.value.cq == []
    ensures r.Returns? ==> (r.value.setupFlags & SetupSqPoll != 0 <==> SqPolling in features)
    ensures r.Returns? ==> r.value.setupFlags & !SetupSqPoll == 0
  {
    var flags := SetupFlags(features);
    if kernelFeatures & FeatFastPoll == 0 then Fatal(FastPollMissing)
    else if initRes != 0 then Fatal(InitFailed)
    else Returns(Uring(size, flags, [], [], [], seq(size as int, _ => None), -1))
  }

  ////////////////////////////////////////////////////////////////////////////
  // Event fd
  ////////////////////////////////////////////////////////////////////////////

  /**
   `register_event_fd`: `efd` is what `eventfd(0, 0)` returned and `libRes`
   what `io_uring_register_eventfd` returned. Returns the descriptor.
   */
  function RegisterEventFd(u: Uring, efd: int, libRes: int): (r: Exit<(int, Uring)>)
    ensures IsEventFdRegistered(u) ==> r == Fatal(Reregister)
    ensures !IsEventFdRegistered(u) && libRes != 0 ==> r == Fatal(RegisterFailed)
    ensures r.Returns? <==> !IsEventFdRegistered(u) && libRes == 0
    ensures r.Returns? ==> r.value.0 == efd && r.value.1 == u.(eventFd := efd)
    ensures r.Returns? ==> (IsEventFdRegistered(r.value.1) <==> efd != -1)
  {
    if IsEventFdRegistered(u) then Fatal(Reregister)
    else
      var u' := u.(eventFd := efd);
      if libRes != 0 then Fatal(RegisterFailed) else Returns((efd, u'))
  }

  /** `unregister_event_fd`: `libRes` is what `io_uring_unregister_eventfd` returned. */
  function UnregisterEventFd(u: Uring, libRes: int): (r: Exit<Uring>)
    ensures r.Fatal? <==> libRes != 0
    ensures r.Returns? ==> !IsEventFdRegistered(r.value) && r.value == u.(eventFd := -1)
  {
    if libRes != 0 then Fatal(UnregisterFailed) else Returns(u.(eventFd := -1))
  }

  /** A second registration without an unregistration in between always ends the process. */
  lemma SingleRegistration(u: Uring, efd1: int, r1: int, efd2: int, r2: int)
    requires efd1 != -1
    requires RegisterEventFd(u, efd1, r1).Returns?
    ensures RegisterEventFd(RegisterEventFd(u, efd1, r1).value.1, efd2, r2) == Fatal(Reregister)
  {
  }

  /** Unregistering re-opens the ring for registration. */
  lemma UnregisterAllowsRegister(u: Uring, efd: int)
    requires UnregisterEventFd(u, 0).Returns?
    ensures RegisterEventFd(UnregisterEventFd(u, 0).value, efd, 0).Returns?
  {
  }

  ////////////////////////////////////////////////////////////////////////////
  // Submission
  ////////////////////////////////////////////////////////////////////////////

  /**
   Every `prepare_*` member: `io_uring_get_sqe` yields no entry when the
   submission queue is full, and the wrapper returns `failed`; otherwise the
   entry is filled with the operation and `user_data` and `ok` is returned.
   */
  function Prepare(u: Uring, op: RingOp, userData: U64): (r: (UringResult, Uring))
    ensures r.0 != Busy
    ensures r.0 == Failed <==> |u.sq| >= u.size as int
    ensures r.0 == Failed ==> r.1 == u
    ensures r.0 == Ok ==> r.1 == u.(sq := u.sq + [Sqe(op, userData)])
  {
    if |u.sq| >= u.size as int then (Failed, u)
    else (Ok, u.(sq := u.sq + [Sqe(op, userData)]))
  }

  /** How many of `n` further entries fit in the submission queue. */
  function Room(u: Uring, n: nat): (k: nat)
    requires Valid(u)
    ensures k <= n && |u.sq| + k <= u.size as int
  {
    if n <= u.size as int - |u.sq| then n else u.size as int - |u.sq|
  }

  /**
   A sequence of `prepare_*` calls whose results are discarded, as the
   completion callback does: the entries that fit are queued in order, the
   rest are silently dropped.
   */
  function PrepareAll(u: Uring, entries: seq<Sqe>): (r: Uring)
    requires Valid(u)
    ensures Valid(r)
    ensures r.sq == u.sq + entries[..Room(u, |entries|)]
    ensures r == u.(sq := r.sq)
    decreases |entries|
  {
    if |entries| == 0 then u
    else
      var (_, u1) := Prepare(u, entries[0].op, entries[0].userData);
      var r := PrepareAll(u1, entries[1..]);
      assert entries[..Room(u, |entries|)] == if |u.sq| < u.size as int then [entries[0]] + entries[1..][..Room(u1, |entries| - 1)] else [];
      r
  }

  /** How many queued entries a successful submit with library result `libRes` hands over. */
  function Taken(u: Uring, libRes: int): (n: nat)
    requires libRes >= 0
    ensures n <= |u.sq| && n <= libRes
  {
    if libRes <= |u.sq| then libRes else |u.sq|
  }

  /**
   `submit`: a non-negative library result is the number of entries the
   kernel took, `-EBUSY` leaves the queue as it is, any other negative result
   ends the process.
   */
  function Submit(u: Uring, libRes: int): (r: Exit<(UringResult, Uring)>)
    requires Valid(u)
    ensures r.Fatal? <==> libRes < 0 && libRes != -EBusy
    ensures r.Returns? ==> r.value.0 in {Ok, Busy} && Valid(r.value.1)
    ensures r.Returns? ==> (r.value.0 == Busy <==> libRes == -EBusy)
    ensures libRes == -EBusy ==> r == Returns((Busy, u))
    ensures libRes >= 0 ==> r.value.0 == Ok
    ensures libRes >= 0 ==> r.value.1.sq == u.sq[Taken(u, libRes)..]
    ensures libRes >= 0 ==> r.value.1.submitted == u.submitted + u.sq[..Taken(u, libRes)]
    ensures libRes >= 0 ==> r.value.1 == u.(sq := r.value.1.sq, submitted := r.value.1.submitted)
  {
    if libRes >= 0 then
      var n := Taken(u, libRes);
      Returns((Ok, u.(sq := u.sq[n..], submitted := u.submitted + u.sq[..n])))
    else if libRes == -EBusy then Returns((Busy, u))
    else Fatal(SubmitFailed)
  }

  /** Submitting moves entries from the queue to the kernel without losing, duplicating or reordering any. */
  lemma SubmitConservesEntries(u: Uring, libRes: int)
    requires Valid(u)
    requires Submit(u, libRes).Returns?
    ensures Submit(u, libRes).value.1.submitted + Submit(u, libRes).value.1.sq == u.submitted + u.sq
  {
    if libRes >= 0 {
      var n := Taken(u, libRes);
      assert u.sq == u.sq[..n] + u.sq[n..];
    }
  }

  ////////////////////////////////////////////////////////////////////////////
  // Completion dispatch
  ////////////////////////////////////////////////////////////////////////////

  /** What the completion callback asks of the ring: a new state for its owner and entries to prepare. */
  type Callback<!S> = (S, Cqe) -> Exit<(S, seq<Sqe>)>

  datatype DispatchEvent = Invoked(userData: U64, res: I32) | Seen(userData: U64)

  datatype Dispatched<S> = Dispatched(ring: Uring, state: S, trace: seq<DispatchEvent>)

  /** `io_uring_peek_batch_cqe(ring, cqes_, io_uring_size_)`: at most `size` completions, oldest first. */
  function PeekCount(u: Uring): (n: nat)
    ensures n <= u.size as int && n <= |u.cq|
    ensures n == |u.cq| || n == u.size as int
  {
    if |u.cq| <= u.size as int then |u.cq| else u.size as int
  }

  /** The completions a peek hands out: the oldest ones, with the rest left posted behind them. */
  function PeekBatch(u: Uring): (b: seq<Cqe>)
    ensures |b| == PeekCount(u)
    ensures u.cq == b + u.cq[PeekCount(u)..]
  {
    u.cq[..PeekCount(u)]
  }

  /** The batch buffer after the peek: its first entries hold the batch, the rest keep what they held. */
  function Peek(u: Uring): (r: Uring)
    requires Valid(u)
    ensures Valid(r) && r == u.(cqes := r.cqes)
    ensures forall i :: 0 <= i < PeekCount(u) ==> r.cqes[i] == Some(u.cq[i])
  {
    u.(cqes := seq(|u.cqes|, i requires 0 <= i < |u.cqes| => if i < PeekCount(u) then Some(u.cq[i]) else u.cqes[i]))
  }

  /** `io_uring_cqe_seen`: the oldest posted completion is released. */
  function MarkSeen(u: Uring): (r: Uring)
    ensures r == u.(cq := r.cq)
    ensures |u.cq| > 0 ==> r.cq == u.cq[1..]
  {
    if |u.cq| > 0 then u.(cq := u.cq[1..]) else u
  }

  /** The release event of `io_uring_cqe_seen`: the token of the completion it releases, if any is posted. */
  function SeenEvent(u: Uring): (e: seq<DispatchEvent>)
  {
    if |u.cq| > 0 then [Seen(u.cq[0].userData)] else []
  }

  /**
   One dispatch: invoke the callback with the token and result unchanged,
   prepare what it asks for, then mark the oldest posted completion seen,
   logging the token it releases.
   */
  function DispatchOne<S>(d: Dispatched<S>, c: Cqe, cb: Callback<S>): (r: Exit<Dispatched<S>>)
    requires Valid(d.ring)
    ensures r.Fatal? <==> cb(d.state, c).Fatal?
    ensures r.Returns? ==> r.value.state == cb(d.state, c).value.0
    ensures r.Returns? ==> Valid(r.value.ring) && r.value.ring.size == d.ring.size
    ensures r.Returns? && |d.ring.cq| > 0 ==> r.value.ring.cq == d.ring.cq[1..]
    ensures r.Returns? && |d.ring.cq| > 0 && d.ring.cq[0] == c ==>
      r.value.trace == d.trace + [Invoked(c.userData, c.res), Seen(c.userData)]
  {
    match cb(d.state, c)
    case Fatal(m) => Fatal(m)
    case Returns((s, entries)) =>
      var prepared := PrepareAll(d.ring, entries);
      Returns(Dispatched(MarkSeen(prepared), s, d.trace + [Invoked(c.userData, c.res)] + SeenEvent(prepared)))
  }

  /** Reference definition of a batch dispatch: `DispatchOne` for each completion in order, stopping at the first fatal callback. */
  function DispatchBatch<S>(d: Dispatched<S>, batch: seq<Cqe>, cb: Callback<S>): (r: Exit<Dispatched<S>>)
    requires Valid(d.ring)
    ensures r.Returns? ==> Valid(r.value.ring) && r.value.ring.size == d.ring.size
    decreases |batch|
  {
    if |batch| == 0 then Returns(d)
    else
      match DispatchBatch(d, batch[..|batch| - 1], cb)
      case Fatal(m) => Fatal(m)
      case Returns(d1) => DispatchOne(d1, batch[|batch| - 1], cb)
  }

  /** Once a callback has ended the process, dispatching more of the batch changes nothing. */
  lemma {:induction false} DispatchFatalSticky<S>(d: Dispatched<S>, batch: seq<Cqe>, i: nat, cb: Callback<S>)
    requires Valid(d.ring)
    requires i <= |batch|
    requires DispatchBatch(d, batch[..i], cb).Fatal?
    ensures DispatchBatch(d, batch, cb) == DispatchBatch(d, batch[..i], cb)
    decreases |batch| - i
  {
    if i < |batch| {
      assert batch[..i + 1][..i] == batch[..i];
      DispatchFatalSticky(d, batch, i + 1, cb);
    } else {
      assert batch[..i] == batch;
    }
  }

  /** The trace of a batch dispatch: each completion's callback, then its release. */
  function TraceOf(batch: seq<Cqe>): (t: seq<DispatchEvent>)
    ensures |t| == 2 * |batch|
  {
    if |batch| == 0 then []
    else TraceOf(batch[..|batch| - 1]) + [Invoked(batch[|batch| - 1].userData, batch[|batch| - 1].res), Seen(batch[|batch| - 1].userData)]
  }

  lemma {:induction false} TraceOfIndex(batch: seq<Cqe>, i: nat)
    requires i < |batch|
    ensures TraceOf(batch)[2 * i] == Invoked(batch[i].userData, batch[i].res)
    ensures TraceOf(batch)[2 * i + 1] == Seen(batch[i].userData)
    decreases |batch|
  {
    if i < |batch| - 1 {
      TraceOfIndex(batch[..|batch| - 1], i);
    }
  }

  /** One more completion extends the batch dispatch by one `DispatchOne` and its trace by one callback-then-release pair. */
  lemma DispatchStep<S>(d: Dispatched<S>, batch: seq<Cqe>, i: nat, cb: Callback<S>)
    requires Valid(d.ring) && i < |batch|
    requires DispatchBatch(d, batch[..i], cb).Returns?
    ensures DispatchBatch(d, batch[..i + 1], cb) == DispatchOne(DispatchBatch(d, batch[..i], cb).value, batch[i], cb)
    ensures TraceOf(batch[..i + 1]) == TraceOf(batch[..i]) + [Invoked(batch[i].userData, batch[i].res), Seen(batch[i].userData)]
  {
    assert batch[..i + 1][..i] == batch[..i];
  }

  /**
   `for_every_completion`: waits (a wait result of -1 ends the process), peeks
   a batch of at most `size` completions into the batch buffer, and for each
   one in peek order invokes the callback with its token and result and then
   marks it seen.
   */
  method ForEveryCompletion<S>(u: Uring, st: S, waitRes: int, cb: Callback<S>) returns (out: Exit<Dispatched<S>>)
    requires Valid(u)
    ensures waitRes == -1 ==> out == Fatal(WaitFailed)
    ensures waitRes != -1 ==> out == DispatchBatch(Dispatched(Peek(u), st, []), PeekBatch(u), cb)
    ensures out.Returns? ==> Valid(out.value.ring) && out.value.ring.size == u.size
    ensures out.Returns? ==> out.value.ring.cq == u.cq[PeekCount(u)..]
    ensures out.Returns? ==> out.value.trace == TraceOf(PeekBatch(u))
    ensures out.Returns? ==> out.value.ring.submitted == u.submitted && out.value.ring.eventFd == u.eventFd
  {
    if waitRes == -1 {
      return Fatal(WaitFailed);
    }
    var count := PeekCount(u);
    ghost var batch := PeekBatch(u);
    var ring := Peek(u);
    ghost var d0 := Dispatched(ring, st, []);
    var state := st;
    var trace: seq<DispatchEvent> := [];
    var i := 0;
    while i < count
      invariant 0 <= i <= count
      invariant Valid(ring) && ring.size == u.size
      invariant ring.cq == u.cq[i..]
      invariant forall j :: 0 <= j < count ==> ring.cqes[j] == Some(u.cq[j])
      invariant ring.submitted == u.submitted && ring.eventFd == u.eventFd
      invariant trace == TraceOf(batch[..i])
      invariant DispatchBatch(d0, batch[..i], cb) == Returns(Dispatched(ring, state, trace))
    {
      var c := ring.cqes[i].value;
      assert c == batch[i];
      DispatchStep(d0, batch, i, cb);
      var r := cb(state, c);
      if r.Fatal? {
        DispatchFatalSticky(d0, batch, i + 1, cb);
        return Fatal(r.message);
      }
      var (s, entries) := r.value;
      var prepared := PrepareAll(ring, entries);
      trace := trace + [Invoked(c.userData, c.res)] + SeenEvent(prepared);
      ring := MarkSeen(prepared);
      state := s;
      i := i + 1;
    }
    assert batch[..i] == batch;
    out := Returns(Dispatched(ring, state, trace));
  }

  /** The dispatch trace calls back once per completion, in peek order, with the token and result unchanged, releasing each right after. */
  lemma DispatchOrder<S>(u: Uring, d: Dispatched<S>, i: nat)
    requires i < PeekCount(u)
    requires d.trace == TraceOf(PeekBatch(u))
    ensures d.trace[2 * i] == Invoked(u.cq[i].userData, u.cq[i].res)
    ensures d.trace[2 * i + 1] == Seen(u.cq[i].userData)
  {
    TraceOfIndex(PeekBatch(u), i);
  }
}
