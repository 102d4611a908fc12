/**
 The completion-based echo server of src/examples/echo_server.cc: the
 `CompletionCb` functor as a transition function from (callback state,
 completion) to (new callback state, entries to prepare) or a fatal exit,
 the kernel's side of a read and a write on a connection's buffer, and
 `run_event_loop`.

 The callback state is `num_clients`, the append-only deque `read_buffers`
 (each buffer `max_message_size` bytes, value-initialised to zero) and the
 descriptors the callback has shut down. Buffers are named by their index in
 the deque, which is stable because a deque never moves its elements on
 `emplace_back`.
 */
module Echo {
  import opened Prelude
  import opened Token
  import opened Ring
  import opened EchoConfig

  type Buffer = seq<Byte>

  function ZeroBuffer(): (b: Buffer)
    ensures |b| == MaxMessageSize
    ensures forall i :: 0 <= i < |b| ==> b[i] == 0
  {
    seq(MaxMessageSize, _ => 0)
  }

  datatype EchoState = EchoState(numClients: U32, buffers: seq<Buffer>, shutdowns: seq<int>)

  /** A fresh callback whose deque starts with `n` zeroed buffers. */
  function PreSized(n: nat): (s: EchoState)
    ensures s.numClients == 0 && |s.buffers| == n && s.shutdowns == []
    ensures forall i :: 0 <= i < n ==> s.buffers[i] == ZeroBuffer()
  {
    EchoState(0, seq(n, _ => ZeroBuffer()), [])
  }

  /** The callback as constructed in the source: `read_buffers{max_events}` holds `max_events` buffers before any client. */
  function InitialAsWritten(): (s: EchoState)
    ensures |s.buffers| == MaxEvents && s.numClients == 0
  {
    PreSized(MaxEvents)
  }

  /** The callback as evidently intended: the deque starts empty, so client `id`'s buffer is `read_buffers[id]`. */
  function Initial(): (s: EchoState)
    ensures s.buffers == [] && s.numClients == 0
  {
    PreSized(0)
  }

  const AcceptFailed := "accept operation failed."
  const ReadFailed := "read operation failed."
  const WriteFailed := "write operation failed."

  function FailureMessage(k: RequestType): string {
    match k
    case Accept => AcceptFailed
    case Read => ReadFailed
    case Write => WriteFailed
  }

  /**
   `CompletionCb::operator()(user_data, result)`. The `prepare_*` results are
   discarded by the source, so the entries are returned for the ring to
   prepare in order, whether or not they fit.
   */
  function OnCompletion(listenFd: int, s: EchoState, c: Cqe): (r: Exit<(EchoState, seq<Sqe>)>)
    ensures r.Fatal? <==> Unpack(c.userData).Some? && c.res == -1
    ensures r.Returns? ==> s.buffers <= r.value.0.buffers && s.shutdowns <= r.value.0.shutdowns
    ensures r.Returns? ==> |r.value.1| <= 2
  {
    match Unpack(c.userData)
    case None => Returns((s, []))
    case Some(req) =>
      if c.res == -1 then Fatal(FailureMessage(req.kind))
      else
        match req.kind
        case Accept =>
          var id := s.numClients;
          var nextAccept := Sqe(AcceptOp(listenFd), Pack(IORequest(Accept, 0, id)));
          var nextRead := Sqe(ReadOp(c.res, |s.buffers|, MaxMessageSize, 0), Pack(IORequest(Read, ToU16(c.res), id)));
          Returns((EchoState(IncU32(id), s.buffers + [ZeroBuffer()], s.shutdowns), [nextAccept, nextRead]))
        case Read =>
          if c.res > 0 then
            var next := Sqe(WriteOp(req.fd, req.clientId, c.res, 0), Pack(IORequest(Write, req.fd, req.clientId)));
            Returns((s, [next]))
          else
            Returns((s.(shutdowns := s.shutdowns + [req.fd]), []))
        case Write =>
          var next := Sqe(ReadOp(req.fd, req.clientId, MaxMessageSize, 0), Pack(IORequest(Read, req.fd, req.clientId)));
          Returns((s, [next]))
  }

  /** A token whose type byte names no request type is ignored. */
  lemma UnknownTokenIgnored(listenFd: int, s: EchoState, c: Cqe)
    requires TypeByte(c.userData) >= 3
    ensures OnCompletion(listenFd, s, c) == Returns((s, []))
  {
  }

  /**
   An accept completion that is not -1: one new accept tagged with the old
   client count, one appended buffer, one read of `max_message_size` bytes on
   the accepted descriptor into that buffer (token: read, the descriptor
   narrowed to 16 bits, the old client count), and the count goes up by one.
   Other negative results fall through the same way.
   */
  lemma AcceptCompletion(listenFd: int, s: EchoState, c: Cqe, fd: U16, id: U32)
    requires c.userData == Pack(IORequest(Accept, fd, id)) && c.res != -1
    ensures OnCompletion(listenFd, s, c).Returns?
    ensures OnCompletion(listenFd, s, c).value.1 ==
      [Sqe(AcceptOp(listenFd), Pack(IORequest(Accept, 0, s.numClients))),
       Sqe(ReadOp(c.res, |s.buffers|, MaxMessageSize, 0), Pack(IORequest(Read, ToU16(c.res), s.numClients)))]
    ensures OnCompletion(listenFd, s, c).value.0.buffers == s.buffers + [ZeroBuffer()]
    ensures OnCompletion(listenFd, s, c).value.0.numClients == IncU32(s.numClients)
    ensures OnCompletion(listenFd, s, c).value.0.shutdowns == s.shutdowns
  {
    UnpackPack(IORequest(Accept, fd, id));
  }

  /**
   A read completion: a positive result queues exactly one write of that many
   bytes from buffer `client_id` on the same descriptor, with descriptor and
   client id carried over; a result of zero or a negative one other than -1
   queues nothing and shuts the descriptor down.
   */
  lemma ReadCompletion(listenFd: int, s: EchoState, c: Cqe, fd: U16, id: U32)
    requires c.userData == Pack(IORequest(Read, fd, id)) && c.res != -1
    ensures c.res > 0 ==>
      OnCompletion(listenFd, s, c) == Returns((s, [Sqe(WriteOp(fd, id, c.res, 0), Pack(IORequest(Write, fd, id)))]))
    ensures c.res <= 0 ==> OnCompletion(listenFd, s, c) == Returns((s.(shutdowns := s.shutdowns + [fd]), []))
  {
    UnpackPack(IORequest(Read, fd, id));
  }

  /** A write completion that is not -1, whatever its result, queues exactly one read of `max_message_size` bytes into buffer `client_id` on the same descriptor. */
  lemma WriteCompletion(listenFd: int, s: EchoState, c: Cqe, fd: U16, id: U32)
    requires c.userData == Pack(IORequest(Write, fd, id)) && c.res != -1
    ensures OnCompletion(listenFd, s, c) ==
      Returns((s, [Sqe(ReadOp(fd, id, MaxMessageSize, 0), Pack(IORequest(Read, fd, id)))]))
  {
    UnpackPack(IORequest(Write, fd, id));
  }

  /** Every entry the callback queues carries a token that unpacks to a request of the expected kind for its operation. */
  lemma QueuedTokensWellFormed(listenFd: int, s: EchoState, c: Cqe, i: nat)
    requires OnCompletion(listenFd, s, c).Returns?
    requires i < |OnCompletion(listenFd, s, c).value.1|
    ensures var e := OnCompletion(listenFd, s, c).value.1[i];
      Unpack(e.userData).Some? &&
      (e.op.AcceptOp? <==> Unpack(e.userData).value.kind == Accept) &&
      (e.op.ReadOp? <==> Unpack(e.userData).value.kind == Read) &&
      (e.op.WriteOp? <==> Unpack(e.userData).value.kind == Write)
  {
    var req := Unpack(c.userData).value;
    var id := s.numClients;
    UnpackPack(IORequest(Accept, 0, id));
    UnpackPack(IORequest(Read, ToU16(c.res), id));
    UnpackPack(IORequest(Write, req.fd, req.clientId));
    UnpackPack(IORequest(Read, req.fd, req.clientId));
  }

  ////////////////////////////////////////////////////////////////////////////
  // The callback state invariant and buffer slots
  ////////////////////////////////////////////////////////////////////////////

  /**
   The deque holds the `p` buffers it was created with plus one per accept
   completion, `num_clients` is the number of accepts modulo 2^32, and every
   buffer has `max_message_size` bytes.
   */
  predicate Inv(s: EchoState, p: nat) {
    && |s.buffers| >= p
    && s.numClients as int == (|s.buffers| - p) % 0x1_0000_0000
    && forall i :: 0 <= i < |s.buffers| ==> |s.buffers[i]| == MaxMessageSize
  }

  lemma InitialInv(p: nat)
    ensures Inv(PreSized(p), p)
  {
  }

  lemma OnCompletionPreservesInv(listenFd: int, s: EchoState, c: Cqe, p: nat)
    requires Inv(s, p)
    requires OnCompletion(listenFd, s, c).Returns?
    ensures Inv(OnCompletion(listenFd, s, c).value.0, p)
  {
    var s' := OnCompletion(listenFd, s, c).value.0;
    if Unpack(c.userData).Some? && Unpack(c.userData).value.kind == Accept {
      assert |s'.buffers| == |s.buffers| + 1;
      var n := |s.buffers| - p;
      assert s'.numClients as int == (s.numClients as int + 1) % 0x1_0000_0000;
      assert s'.numClients as int == (n + 1) % 0x1_0000_0000;
    }
  }

  /**
   The buffer the post-accept read fills is the appended one, at index
   `p + num_clients`, while the write and every later read of that client use
   index `client_id == num_clients`. The two agree exactly when the deque
   starts empty.
   */
  lemma AcceptReadSlot(listenFd: int, s: EchoState, c: Cqe, p: nat)
    requires Inv(s, p) && |s.buffers| - p < 0x1_0000_0000
    requires Unpack(c.userData).Some? && Unpack(c.userData).value.kind == Accept && c.res != -1
    ensures OnCompletion(listenFd, s, c).value.1[1].op.slot == p + s.numClients as int
    ensures Unpack(OnCompletion(listenFd, s, c).value.1[1].userData).value.clientId == s.numClients
    ensures OnCompletion(listenFd, s, c).value.1[1].op.slot == s.numClients as int <==> p == 0
  {
    UnpackPack(IORequest(Read, ToU16(c.res), s.numClients));
  }

  /** In a state the callback can reach, every buffer index a queued read or write names exists. */
  lemma QueuedSlotsInRange(listenFd: int, s: EchoState, c: Cqe, p: nat, i: nat)
    requires Inv(s, p) && |s.buffers| < 0x1_0000_0000
    requires Unpack(c.userData).Some? && (Unpack(c.userData).value.clientId as int) < s.numClients as int
    requires OnCompletion(listenFd, s, c).Returns?
    requires i < |OnCompletion(listenFd, s, c).value.1|
    requires OnCompletion(listenFd, s, c).value.1[i].op.ReadOp? || OnCompletion(listenFd, s, c).value.1[i].op.WriteOp?
    ensures OnCompletion(listenFd, s, c).value.1[i].op.slot < |OnCompletion(listenFd, s, c).value.0.buffers|
  {
  }

  /** `num_clients` goes up by one per accept, wrapping only after 2^32 accepts. */
  lemma ClientCountMonotone(listenFd: int, s: EchoState, c: Cqe)
    requires OnCompletion(listenFd, s, c).Returns?
    requires s.numClients < 0xFFFF_FFFF
    ensures OnCompletion(listenFd, s, c).value.0.numClients >= s.numClients
    ensures OnCompletion(listenFd, s, c).value.0.numClients <= s.numClients + 1
  {
  }

  ////////////////////////////////////////////////////////////////////////////
  // The kernel's side of a read and a write, and the first echo
  ////////////////////////////////////////////////////////////////////////////

  /** The kernel completing a read of `payload` into buffer `slot`: the bytes overwrite the front of that buffer. */
  function KernelRead(buffers: seq<Buffer>, slot: nat, payload: seq<Byte>): (b: seq<Buffer>)
    requires slot < |buffers| && |payload| <= |buffers[slot]|
    ensures |b| == |buffers| && |b[slot]| == |buffers[slot]|
    ensures b[slot][..|payload|] == payload
    ensures forall i :: 0 <= i < |b| && i != slot ==> b[i] == buffers[i]
  {
    buffers[slot := payload + buffers[slot][|payload|..]]
  }

  /** The bytes a write of `n` bytes from buffer `slot` puts on the wire. */
  function KernelWrite(buffers: seq<Buffer>, slot: nat, n: nat): (bytes: seq<Byte>)
    requires slot < |buffers| && n <= |buffers[slot]|
    ensures |bytes| == n
  {
    buffers[slot][..n]
  }

  /**
   A fresh callback whose deque starts with `p` buffers; a client connects on
   descriptor `fd` and sends `payload`. The bytes echoed back: the accept
   completion queues a read, the kernel fills that read's buffer, the read
   completion queues a write, and the write sends from its buffer.
   */
  function FirstEchoReply(p: nat, listenFd: int, fd: U16, payload: seq<Byte>): (reply: seq<Byte>)
    requires 1 <= |payload| <= MaxMessageSize
    ensures |reply| == |payload|
  {
    UnpackPack(IORequest(Accept, 0, 0));
    var s0 := PreSized(p);
    var accepted := OnCompletion(listenFd, s0, Cqe(Pack(IORequest(Accept, 0, 0)), fd)).value;
    var read := accepted.1[1];
    UnpackPack(IORequest(Read, fd, 0));
    var s1 := accepted.0.(buffers := KernelRead(accepted.0.buffers, read.op.slot, payload));
    var echoed := OnCompletion(listenFd, s1, Cqe(read.userData, |payload|)).value;
    var write := echoed.1[0];
    KernelWrite(echoed.0.buffers, write.op.slot, write.op.numBytes as nat)
  }

  /** With the deque pre-sized as written, the first echo sends zero bytes from an untouched buffer instead of the payload. */
  lemma FirstEchoAsWritten(listenFd: int, fd: U16, payload: seq<Byte>)
    requires 1 <= |payload| <= MaxMessageSize
    ensures FirstEchoReply(MaxEvents, listenFd, fd, payload) == seq(|payload|, _ => 0)
    ensures payload[0] != 0 ==> FirstEchoReply(MaxEvents, listenFd, fd, payload) != payload
  {
    var reply := FirstEchoReply(MaxEvents, listenFd, fd, payload);
    assert reply[0] == 0;
    assert forall i :: 0 <= i < |reply| ==> reply[i] == 0;
  }

  /** With the deque starting empty, the first echo sends back exactly the payload. */
  lemma FirstEchoCorrected(listenFd: int, fd: U16, payload: seq<Byte>)
    requires 1 <= |payload| <= MaxMessageSize
    ensures FirstEchoReply(0, listenFd, fd, payload) == payload
  {
  }

  /** The concrete case: client 0 sends "hi" on a freshly started server. */
  lemma FirstEchoOfHi()
    ensures FirstEchoReply(MaxEvents, 3, 5, [104, 105]) == [0, 0]
    ensures FirstEchoReply(0, 3, 5, [104, 105]) == [104, 105]
  {
    FirstEchoAsWritten(3, 5, [104, 105]);
    FirstEchoCorrected(3, 5, [104, 105]);
  }

  ////////////////////////////////////////////////////////////////////////////
  // The callback driven by the ring
  ////////////////////////////////////////////////////////////////////////////

  function Callback(listenFd: int): Ring.Callback<EchoState> {
    (s, c) => OnCompletion(listenFd, s, c)
  }

  /**
   Dispatching an accept completion through the ring: with two free
   submission slots the new accept and the read are both queued; with a full
   submission queue both are dropped, and no accept stays armed.
   */
  lemma AcceptDispatch(listenFd: int, d: Dispatched<EchoState>, c: Cqe, fd: U16, id: U32)
    requires Valid(d.ring)
    requires c.userData == Pack(IORequest(Accept, fd, id)) && c.res != -1
    ensures DispatchOne(d, c, Callback(listenFd)).Returns?
    ensures |d.ring.sq| + 2 <= d.ring.size as int ==>
      DispatchOne(d, c, Callback(listenFd)).value.ring.sq == d.ring.sq + OnCompletion(listenFd, d.state, c).value.1
    ensures |d.ring.sq| == d.ring.size as int ==>
      DispatchOne(d, c, Callback(listenFd)).value.ring.sq == d.ring.sq
  {
    AcceptCompletion(listenFd, d.state, c, fd, id);
    var entries := OnCompletion(listenFd, d.state, c).value.1;
    assert Room(d.ring, |entries|) == |entries| ==> entries[..Room(d.ring, |entries|)] == entries;
  }

  lemma {:induction false} DispatchPreservesInv(listenFd: int, d: Dispatched<EchoState>, batch: seq<Cqe>, p: nat)
    requires Valid(d.ring) && Inv(d.state, p)
    requires DispatchBatch(d, batch, Callback(listenFd)).Returns?
    ensures Inv(DispatchBatch(d, batch, Callback(listenFd)).value.state, p)
    decreases |batch|
  {
    if |batch| > 0 {
      var prefix := batch[..|batch| - 1];
      DispatchPreservesInv(listenFd, d, prefix, p);
      var d1 := DispatchBatch(d, prefix, Callback(listenFd)).value;
      OnCompletionPreservesInv(listenFd, d1.state, batch[|batch| - 1], p);
    }
  }

  ////////////////////////////////////////////////////////////////////////////
  // run_event_loop
  ////////////////////////////////////////////////////////////////////////////

  const BootToken: U64 := Pack(IORequest(Accept, 0, 0))

  /** The bootstrap: one accept tagged with client id 0 is prepared (its result discarded) and the queue submitted. */
  function Bootstrap(listenFd: int, ring: Uring, submitRes: int): (r: Exit<Uring>)
    requires Valid(ring)
    ensures r.Fatal? <==> submitRes < 0 && submitRes != -EBusy
    ensures r.Returns? ==> Valid(r.value) && r.value.size == ring.size && r.value.cq == ring.cq
  {
    var (_, queued) := Prepare(ring, AcceptOp(listenFd), BootToken);
    Then(Submit(queued, submitRes), (p: (UringResult, Uring)) => Returns(p.1))
  }

  /** On a fresh ring whose submit takes the entry, exactly one accept reaches the kernel, tagged (accept, fd 0, client 0). */
  lemma BootstrapSubmitsOneAccept(listenFd: int, ring: Uring, submitRes: int)
    requires Valid(ring) && ring.sq == [] && ring.size >= 1 && submitRes >= 1
    ensures Bootstrap(listenFd, ring, submitRes).Returns?
    ensures Bootstrap(listenFd, ring, submitRes).value.submitted == ring.submitted + [Sqe(AcceptOp(listenFd), BootToken)]
    ensures Bootstrap(listenFd, ring, submitRes).value.sq == []
    ensures Unpack(BootToken) == Some(IORequest(Accept, 0, 0))
  {
    UnpackPack(IORequest(Accept, 0, 0));
  }

  /** What the kernel does between two batches: it posts completions and reports the wait and submit results. */
  datatype Round = Round(posted: seq<Cqe>, waitRes: int, submitRes: int)

  /** One loop iteration as observed: how many completions were dispatched and what the submit returned. */
  datatype Iteration = Iteration(dispatched: nat, submitted: UringResult)

  datatype Server = Server(ring: Uring, state: EchoState)

  /** The ring once the kernel has posted a round's completions behind those still unseen. */
  function Posted(u: Uring, round: Round): (r: Uring)
    requires Valid(u)
    ensures Valid(r) && r.cq == u.cq + round.posted && r.size == u.size
  {
    u.(cq := u.cq + round.posted)
  }

  /**
   Reference definition of one loop iteration: `for_every_completion` (the
   wait, then one dispatch batch of the peeked completions through the
   callback), followed by one `submit`.
   */
  function RoundSpec(listenFd: int, s: Server, round: Round): (r: Exit<(Server, Iteration)>)
    requires Valid(s.ring)
    ensures round.waitRes == -1 ==> r == Fatal(WaitFailed)
    ensures r.Returns? ==> Valid(r.value.0.ring) && r.value.0.ring.size == s.ring.size
    ensures r.Returns? ==> r.value.1.dispatched == PeekCount(Posted(s.ring, round)) <= s.ring.size as int
    ensures r.Returns? ==> (r.value.1.submitted == Busy <==> round.submitRes == -EBusy)
  {
    var posted := Posted(s.ring, round);
    if round.waitRes == -1 then Fatal(WaitFailed)
    else
      match DispatchBatch(Dispatched(Peek(posted), s.state, []), PeekBatch(posted), Callback(listenFd))
      case Fatal(m) => Fatal(m)
      case Returns(d) =>
        match Submit(d.ring, round.submitRes)
        case Fatal(m) => Fatal(m)
        case Returns((res, ring)) => Returns((Server(ring, d.state), Iteration(PeekCount(posted), res)))
  }

  /** A loop iteration keeps the callback invariant. */
  lemma RoundPreservesInv(listenFd: int, s: Server, round: Round, p: nat)
    requires Valid(s.ring) && Inv(s.state, p)
    requires RoundSpec(listenFd, s, round).Returns?
    ensures Inv(RoundSpec(listenFd, s, round).value.0.state, p)
  {
    var posted := Posted(s.ring, round);
    DispatchPreservesInv(listenFd, Dispatched(Peek(posted), s.state, []), PeekBatch(posted), p);
  }

  /** Reference definition of the loop over the rounds the environment supplies: one `RoundSpec` per round, stopping at the first fatal one. */
  function LoopSpec(listenFd: int, s: Server, rounds: seq<Round>): (r: Exit<(Server, seq<Iteration>)>)
    requires Valid(s.ring)
    ensures r.Returns? ==> Valid(r.value.0.ring) && r.value.0.ring.size == s.ring.size
    ensures r.Returns? ==> |r.value.1| == |rounds|
    decreases |rounds|
  {
    if |rounds| == 0 then Returns((s, []))
    else
      match LoopSpec(listenFd, s, rounds[..|rounds| - 1])
      case Fatal(m) => Fatal(m)
      case Returns((s1, log)) =>
        match RoundSpec(listenFd, s1, rounds[|rounds| - 1])
        case Fatal(m) => Fatal(m)
        case Returns((s2, it)) => Returns((s2, log + [it]))
  }

  /** The last round of a loop that returns: the loop over the earlier rounds returned, and the last round extended its server and log. */
  lemma LoopSpecStep(listenFd: int, s: Server, rounds: seq<Round>)
    requires Valid(s.ring) && |rounds| > 0
    requires LoopSpec(listenFd, s, rounds).Returns?
    ensures LoopSpec(listenFd, s, rounds[..|rounds| - 1]).Returns?
    ensures var prior := LoopSpec(listenFd, s, rounds[..|rounds| - 1]).value;
      && RoundSpec(listenFd, prior.0, rounds[|rounds| - 1]).Returns?
      && var next := RoundSpec(listenFd, prior.0, rounds[|rounds| - 1]).value;
      LoopSpec(listenFd, s, rounds).value == (next.0, prior.1 + [next.1])
  {
  }

  /** Entry k of a log is round k's: at most `size` completions dispatched, and busy exactly when that round's submit said `-EBUSY`. */
  predicate LogFits(log: seq<Iteration>, rounds: seq<Round>, size: int) {
    && |log| <= |rounds|
    && (forall k :: 0 <= k < |log| ==> log[k].dispatched <= size)
    && (forall k :: 0 <= k < |log| ==> (log[k].submitted == Busy <==> rounds[k].submitRes == -EBusy))
  }

  /** A log that fits the earlier rounds, extended by an iteration that fits the last round, fits all of them. */
  lemma LogFitsAppend(log: seq<Iteration>, rounds: seq<Round>, it: Iteration, size: int)
    requires |rounds| > 0 && |log| == |rounds| - 1
    requires LogFits(log, rounds[..|rounds| - 1], size)
    requires it.dispatched <= size && (it.submitted == Busy <==> rounds[|rounds| - 1].submitRes == -EBusy)
    ensures LogFits(log + [it], rounds, size)
  {
    var full := log + [it];
    forall k | 0 <= k < |full|
      ensures full[k].dispatched <= size
      ensures full[k].submitted == Busy <==> rounds[k].submitRes == -EBusy
    {
      if k < |log| {
        assert full[k] == log[k] && rounds[k] == rounds[..|rounds| - 1][k];
      }
    }
  }

  lemma {:induction false} LoopLog(listenFd: int, s: Server, rounds: seq<Round>)
    requires Valid(s.ring)
    requires LoopSpec(listenFd, s, rounds).Returns?
    ensures LogFits(LoopSpec(listenFd, s, rounds).value.1, rounds, s.ring.size as int)
    decreases |rounds|
  {
    if |rounds| > 0 {
      var prefix := rounds[..|rounds| - 1];
      LoopSpecStep(listenFd, s, rounds);
      LoopLog(listenFd, s, prefix);
      var prior := LoopSpec(listenFd, s, prefix).value;
      var it := RoundSpec(listenFd, prior.0, rounds[|rounds| - 1]).value.1;
      LogFitsAppend(prior.1, rounds, it, s.ring.size as int);
    }
  }

  /** Once a round has ended the process, later rounds change nothing. */
  lemma {:induction false} LoopFatalSticky(listenFd: int, s: Server, rounds: seq<Round>, i: nat)
    requires Valid(s.ring)
    requires i <= |rounds|
    requires LoopSpec(listenFd, s, rounds[..i]).Fatal?
    ensures LoopSpec(listenFd, s, rounds) == LoopSpec(listenFd, s, rounds[..i])
    decreases |rounds| - i
  {
    if i < |rounds| {
      assert rounds[..i + 1][..i] == rounds[..i];
      LoopFatalSticky(listenFd, s, rounds, i + 1);
    } else {
      assert rounds[..i] == rounds;
    }
  }

  /** Every round of the loop keeps the callback invariant. */
  lemma {:induction false} LoopPreservesInv(listenFd: int, s: Server, rounds: seq<Round>, p: nat)
    requires Valid(s.ring) && Inv(s.state, p)
    requires LoopSpec(listenFd, s, rounds).Returns?
    ensures Inv(LoopSpec(listenFd, s, rounds).value.0.state, p)
    decreases |rounds|
  {
    if |rounds| > 0 {
      var prefix := rounds[..|rounds| - 1];
      LoopPreservesInv(listenFd, s, prefix, p);
      RoundPreservesInv(listenFd, LoopSpec(listenFd, s, prefix).value.0, rounds[|rounds| - 1], p);
    }
  }

  /**
   Reference definition of `run_event_loop` for the callback whose deque
   starts with `p` buffers: the bootstrap, then `LoopSpec`. The server as
   written is `p == MaxEvents` (`InitialAsWritten`); `p == 0` (`Initial`) is
   the corrected one.
   */
  function EventLoop(listenFd: int, ring: Uring, bootSubmit: int, rounds: seq<Round>, p: nat): (r: Exit<(Server, seq<Iteration>)>)
    requires Valid(ring)
    ensures bootSubmit < 0 && bootSubmit != -EBusy ==> r.Fatal?
    ensures r.Returns? ==> r.value.0.ring.size == ring.size && |r.value.1| == |rounds|
  {
    match Bootstrap(listenFd, ring, bootSubmit)
    case Fatal(m) => Fatal(m)
    case Returns(u) => LoopSpec(listenFd, Server(u, PreSized(p)), rounds)
  }

  /** The loop keeps the callback invariant from the start, for the written and the corrected pre-size alike. */
  lemma EventLoopInv(listenFd: int, ring: Uring, bootSubmit: int, rounds: seq<Round>, p: nat)
    requires Valid(ring)
    requires EventLoop(listenFd, ring, bootSubmit, rounds, p).Returns?
    ensures Inv(EventLoop(listenFd, ring, bootSubmit, rounds, p).value.0.state, p)
  {
    var u := Bootstrap(listenFd, ring, bootSubmit).value;
    InitialInv(p);
    LoopPreservesInv(listenFd, Server(u, PreSized(p)), rounds, p);
  }

  /** One iteration of the loop: `for_every_completion` on the posted completions, then `submit`. */
  method RunRound(listenFd: int, server: Server, round: Round, ghost p: nat) returns (out: Exit<(Server, Iteration)>)
    requires Valid(server.ring) && Inv(server.state, p)
    ensures out == RoundSpec(listenFd, server, round)
    ensures out.Returns? ==> Inv(out.value.0.state, p)
  {
    var posted := Posted(server.ring, round);
    var batch := ForEveryCompletion(posted, server.state, round.waitRes, Callback(listenFd));
    if batch.Fatal? {
      return Fatal(batch.message);
    }
    var submitted := Submit(batch.value.ring, round.submitRes);
    if submitted.Fatal? {
      return Fatal(submitted.message);
    }
    out := Returns((Server(submitted.value.1, batch.value.state), Iteration(PeekCount(posted), submitted.value.0)));
    RoundPreservesInv(listenFd, server, round, p);
  }

  /**
   `run_event_loop` for the rounds the environment supplies, with a callback
   whose deque starts with `p` buffers (`MaxEvents` as written, 0 corrected):
   the bootstrap, then per round one dispatch batch followed by one submit.
   `log` records the rounds that completed, also when a later one is fatal.
   */
  method RunEventLoop(listenFd: int, ring: Uring, bootSubmit: int, rounds: seq<Round>, p: nat) returns (out: Exit<Server>, log: seq<Iteration>)
    requires Valid(ring)
    ensures out.Fatal? ==> EventLoop(listenFd, ring, bootSubmit, rounds, p) == Fatal(out.message)
    ensures out.Returns? ==> EventLoop(listenFd, ring, bootSubmit, rounds, p) == Returns((out.value, log))
    ensures out.Returns? ==> Inv(out.value.state, p)
    ensures LogFits(log, rounds, ring.size as int)
  {
    log := [];
    var booted := Bootstrap(listenFd, ring, bootSubmit);
    if booted.Fatal? {
      return Fatal(booted.message), log;
    }
    ghost var start := Server(booted.value, PreSized(p));
    var server := Server(booted.value, PreSized(p));
    InitialInv(p);
    var k := 0;
    while k < |rounds|
      invariant 0 <= k <= |rounds|
      invariant LoopSpec(listenFd, start, rounds[..k]) == Returns((server, log))
      invariant Valid(server.ring) && Inv(server.state, p)
    {
      assert rounds[..k + 1][..k] == rounds[..k];
      var next := RunRound(listenFd, server, rounds[k], p);
      if next.Fatal? {
        LoopFatalSticky(listenFd, start, rounds, k + 1);
        LoopLog(listenFd, start, rounds[..k]);
        return Fatal(next.message), log;
      }
      log := log + [next.value.1];
      server := next.value.0;
      k := k + 1;
    }
    assert rounds[..k] == rounds;
    LoopLog(listenFd, start, rounds);
    out := Returns(server);
  }
}
