/**
 The readiness-based peer of src/examples/echo_server.cc: the mode selector
 `get_mode` and the per-event decision `handle_echo`. The syscalls become
 inputs (what `recv` returned and wrote, what `send` returned) and outputs
 (the calls made, in order). The server shares one receive buffer across
 every connection and never clears it after start-up.
 */
module EpollPeer {
  import opened Prelude
  import opened EchoConfig

  datatype IoMode = Epoll | IoUring

  const UsageError := "Usage Error: Mode must be one of epoll|io_uring"
  const SendFailed := "failed to send echo back."

  /** `get_mode`: the exact strings `epoll` and `io_uring`, anything else is a fatal usage error. */
  function GetMode(mode: string): (r: Exit<IoMode>)
    ensures r == Returns(Epoll) <==> mode == "epoll"
    ensures r == Returns(IoUring) <==> mode == "io_uring"
    ensures r.Fatal? <==> mode != "epoll" && mode != "io_uring"
  {
    if mode == "epoll" then Returns(Epoll)
    else if mode == "io_uring" then Returns(IoUring)
    else Fatal(UsageError)
  }

  /** The control message `"bye\n"` as bytes. */
  const Bye: seq<Byte> := [98, 121, 101, 10]

  /** The calls `handle_echo` makes, in the order it makes them. */
  datatype Call = EpollDel(fd: int) | Shutdown(fd: int) | Send(fd: int, bytes: seq<Byte>)

  datatype Echoed = Echoed(keepRunning: bool, buffer: seq<Byte>, calls: seq<Call>)

  /** What a `recv` of `payload` leaves in the buffer: the payload over the front, the stale rest behind it. */
  function Receive(buffer: seq<Byte>, payload: seq<Byte>): (b: seq<Byte>)
    requires |payload| <= |buffer|
    ensures |b| == |buffer| && b[..|payload|] == payload
    ensures b[|payload|..] == buffer[|payload|..]
  {
    payload + buffer[|payload|..]
  }

  /** The C string a buffer holds: the bytes before its first NUL (the whole buffer if it has none). */
  function CString(b: seq<Byte>): (s: seq<Byte>)
    ensures |s| <= |b| && s == b[..|s|]
    ensures forall i :: 0 <= i < |s| ==> s[i] != 0
    ensures |s| < |b| ==> b[|s|] == 0
  {
    if |b| == 0 || b[0] == 0 then [] else [b[0]] + CString(b[1..])
  }

  /** The stop test as written: four bytes received and `strcmp(buffer, "bye\n") == 0` on the whole shared buffer. */
  function ByeAsWritten(buffer: seq<Byte>, received: int): (b: bool)
    ensures b ==> received == 4 && |buffer| >= 4 && buffer[..4] == Bye
  {
    received == 4 && CString(buffer) == Bye
  }

  /** The written test holds only when the byte after the four received ones happens to be NUL. */
  lemma ByeAsWrittenNeedsNul(buffer: seq<Byte>, received: int)
    requires |buffer| > 4
    ensures ByeAsWritten(buffer, received) <==> received == 4 && buffer[..4] == Bye && buffer[4] == 0
  {
    var s := CString(buffer);
    if received == 4 && buffer[..4] == Bye && buffer[4] == 0 {
      assert forall i :: 0 <= i < 4 ==> buffer[i] != 0;
      assert |s| == 4;
    }
  }

  /** The discrepancy: after a 7-byte message, `"bye\n"` leaves a stale non-NUL byte at index 4 and does not stop the loop. */
  lemma ByeAfterLongerMessage()
    ensures var buffer := Receive(Receive(seq(MaxMessageSize, _ => 0), [104, 101, 108, 108, 111, 33, 10]), Bye);
      !ByeAsWritten(buffer, 4) && buffer[..4] == Bye
  {
    var buffer := Receive(Receive(seq(MaxMessageSize, _ => 0), [104, 101, 108, 108, 111, 33, 10]), Bye);
    assert buffer[4] == 111;
    ByeAsWrittenNeedsNul(buffer, 4);
  }

  /** The stop test as evidently intended: the four bytes just received are `"bye\n"`. */
  function IsBye(buffer: seq<Byte>, received: int): (b: bool)
    requires 0 <= received <= |buffer|
    ensures b <==> received == 4 && buffer[..received] == Bye
  {
    received == 4 && buffer[..4] == Bye
  }

  /** Whatever the buffer held before, the intended test stops exactly when the message received is `"bye\n"`. */
  lemma IsByeIgnoresStaleBytes(buffer: seq<Byte>, payload: seq<Byte>)
    requires |payload| <= |buffer|
    ensures IsBye(Receive(buffer, payload), |payload|) <==> payload == Bye
  {
  }

  /**
   `handle_echo` on one readable connection. `received` is what `recv`
   returned, `payload` the bytes it wrote, `sendRes` what `send` returned.
   A result of zero or less removes the descriptor from the interest list and
   then shuts it down; a positive one echoes the bytes back and stops the
   loop when the written test `ByeAsWritten` holds on the shared buffer.
   */
  function HandleEcho(fd: int, buffer: seq<Byte>, received: int, payload: seq<Byte>, sendRes: int): (r: Exit<Echoed>)
    requires |buffer| == MaxMessageSize
    requires received <= MaxMessageSize
    requires received > 0 ==> |payload| == received
    ensures received <= 0 ==> r == Returns(Echoed(true, buffer, [EpollDel(fd), Shutdown(fd)]))
    ensures received > 0 && sendRes == -1 ==> r.Fatal?
    ensures received > 0 && sendRes != -1 ==> r.Returns? && r.value.calls == [Send(fd, payload)]
    ensures received > 0 && sendRes != -1 ==> r.value.buffer == Receive(buffer, payload)
    ensures received > 0 && sendRes != -1 ==>
      (r.value.keepRunning <==> !(received == 4 && CString(Receive(buffer, payload)) == Bye))
  {
    if received <= 0 then
      Returns(Echoed(true, buffer, [EpollDel(fd), Shutdown(fd)]))
    else
      var filled := Receive(buffer, payload);
      if sendRes == -1 then Fatal(SendFailed)
      else Returns(Echoed(!ByeAsWritten(filled, received), filled, [Send(fd, filled[..received])]))
  }

  /** `handle_echo` with the intended stop test `IsBye`: the loop stops exactly when the message received is `"bye\n"`. */
  function HandleEchoFixed(fd: int, buffer: seq<Byte>, received: int, payload: seq<Byte>, sendRes: int): (r: Exit<Echoed>)
    requires |buffer| == MaxMessageSize
    requires received <= MaxMessageSize
    requires received > 0 ==> |payload| == received
    ensures received <= 0 ==> r == Returns(Echoed(true, buffer, [EpollDel(fd), Shutdown(fd)]))
    ensures received > 0 && sendRes == -1 ==> r.Fatal?
    ensures received > 0 && sendRes != -1 ==> r.Returns? && r.value.calls == [Send(fd, payload)]
    ensures received > 0 && sendRes != -1 ==> r.value.buffer == Receive(buffer, payload)
    ensures received > 0 && sendRes != -1 ==> (r.value.keepRunning <==> payload != Bye)
  {
    if received <= 0 then
      Returns(Echoed(true, buffer, [EpollDel(fd), Shutdown(fd)]))
    else
      var filled := Receive(buffer, payload);
      if sendRes == -1 then Fatal(SendFailed)
      else Returns(Echoed(!IsBye(filled, received), filled, [Send(fd, filled[..received])]))
  }

  /** The two versions differ only in the stop decision, and agree whenever the byte after a four-byte message is NUL. */
  lemma HandleEchoAgreesWhenNul(fd: int, buffer: seq<Byte>, received: int, payload: seq<Byte>, sendRes: int)
    requires |buffer| == MaxMessageSize
    requires received <= MaxMessageSize
    requires received > 0 ==> |payload| == received
    requires received == 4 ==> buffer[4] == 0
    ensures HandleEcho(fd, buffer, received, payload, sendRes) == HandleEchoFixed(fd, buffer, received, payload, sendRes)
  {
    if received > 0 && sendRes != -1 {
      var filled := Receive(buffer, payload);
      ByeAsWrittenNeedsNul(filled, received);
      if received == 4 {
        assert filled[4] == buffer[4];
      }
    }
  }

  /** On the stale-byte input, the written server keeps running while the intended one stops. */
  lemma HandleEchoByeAfterHello(fd: int, sendRes: int)
    requires sendRes != -1
    ensures var buffer := Receive(seq(MaxMessageSize, _ => 0), [104, 101, 108, 108, 111, 33, 10]);
      HandleEcho(fd, buffer, 4, Bye, sendRes).value.keepRunning
      && !HandleEchoFixed(fd, buffer, 4, Bye, sendRes).value.keepRunning
  {
    ByeAfterLongerMessage();
  }

  /** Interest in a closing descriptor is always removed before it is shut down, and nothing is sent on it. */
  lemma CloseDeregistersFirst(fd: int, buffer: seq<Byte>, received: int, payload: seq<Byte>, sendRes: int)
    requires |buffer| == MaxMessageSize && received <= 0
    ensures var calls := HandleEcho(fd, buffer, received, payload, sendRes).value.calls;
      |calls| == 2 && calls[0] == EpollDel(fd) && calls[1] == Shutdown(fd)
  {
  }
}
