/** The single-threaded event loop: the reader table and what epoll may report. */
module EventLoop {
  import opened Bytes
  import opened Options
  import opened Kernel

  /** Who is called when a descriptor becomes readable. */
  datatype Reader = Listener | Client(fd: int) | Foreign

  /** One reported event, with what the environment decides about the read or accept that follows. */
  datatype Ready = Ready(fd: int, input: bool, candidate: int, offered: Option<seq<byte>>)

  /** What one call of epoll_wait comes back with. */
  datatype Wakeup = Interrupted(stop: bool) | Batch(events: seq<Ready>)

  const MAX_EVENTS: nat := 32

  /** A batch names descriptors that were watched when it was gathered, each at most once. */
  predicate LegalBatch(events: seq<Ready>, interest: set<int>) {
    && |events| <= MAX_EVENTS
    && (forall e <- events :: e.fd in interest)
    && (forall i, j :: 0 <= i < j < |events| ==> events[i].fd != events[j].fd)
  }

  class EventLoop {
    const kernel: Kernel
    var readers: map<int, Reader>
    var running: bool

    constructor (kernel: Kernel)
      ensures this.kernel == kernel && readers == map[] && !running
    {
      this.kernel, readers, running := kernel, map[], false;
    }

    /** Installs the reader first and only then asks the kernel to watch the descriptor; a refusal throws. */
    method AddReader(fd: int, reader: Reader) returns (ok: bool)
      requires kernel.Valid()
      modifies this`readers, kernel`interest
      ensures kernel.Valid()
      ensures readers == old(readers)[fd := reader]
      ensures ok == (fd in kernel.open && fd !in old(kernel.interest))
      ensures kernel.interest == if ok then old(kernel.interest) + {fd} else old(kernel.interest)
    {
      readers := readers[fd := reader];
      ok := kernel.EpollAdd(fd);
    }

    method Remove(fd: int)
      requires kernel.Valid()
      modifies this`readers, kernel`interest
      ensures kernel.Valid()
      ensures readers == old(readers) - {fd} && kernel.interest == old(kernel.interest) - {fd}
    {
      readers := readers - {fd};
      kernel.EpollDelete(fd);
    }

    method Stop()
      modifies this`running
      ensures !running
    {
      running := false;
    }
  }
}
