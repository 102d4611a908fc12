/** The compile-time constants at the top of src/examples/echo_server.cc, shared by both servers. */
module EchoConfig {
  /** `max_events`: the epoll event array, the listen backlog and the number of buffers the ring server pre-sizes. */
  const MaxEvents: nat := 1024
  /** `ring_size`: the ring server's queue depth. */
  const RingSize: nat := MaxEvents * 2
  /** `max_message_size`: the size of every receive buffer. */
  const MaxMessageSize: nat := 2048
}
