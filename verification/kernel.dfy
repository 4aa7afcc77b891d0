/** The operating system as the gateway meets it: open descriptors, the epoll interest list, and the trace of
    socket operations. What the environment decides arrives as parameters of each call. */
module Kernel {
  import opened Bytes
  import opened Options
  import opened DoipTrace

  class Kernel {
    var open: set<int>
    var interest: set<int>
    ghost var trace: Trace

    ghost predicate Valid()
      reads this
    {
      interest <= open
    }

    constructor (open: set<int>)
      ensures this.open == open && interest == {} && trace == Start && Valid()
    {
      this.open, interest, trace := open, {}, Start;
    }

    /** accept: a new descriptor is never one that is open; with no such candidate the call fails. */
    method Accept(candidate: int) returns (fd: int)
      requires Valid()
      modifies this
      ensures Valid() && interest == old(interest)
      ensures fd == if candidate < 0 || candidate in old(open) then -1 else candidate
      ensures fd < 0 ==> open == old(open) && trace == old(trace)
      ensures fd >= 0 ==> open == old(open) + {fd} && trace == Then(old(trace), Accepted(fd))
    {
      if candidate < 0 || candidate in open {
        return -1;
      }
      fd := candidate;
      open, trace := open + {fd}, Then(trace, Accepted(fd));
    }

    /** recv: fails, or hands out as much of what is there as the caller has room for. */
    method Recv(fd: int, offered: Option<seq<byte>>, room: nat) returns (n: int, data: seq<byte>)
      requires Valid()
      modifies this
      ensures Valid() && open == old(open) && interest == old(interest)
      ensures data == Taken(offered, room)
      ensures n == if offered.None? then -1 else |data|
      ensures trace == if data == [] then old(trace) else Then(old(trace), Received(fd, data))
    {
      if offered.None? {
        return -1, [];
      }
      data := if |offered.value| <= room then offered.value else offered.value[..room];
      n := |data|;
      if n > 0 {
        trace := Then(trace, Received(fd, data));
      }
    }

    method Send(fd: int, message: seq<byte>)
      requires Valid()
      modifies this`trace
      ensures trace == Then(old(trace), Sent(fd, message))
    {
      trace := Then(trace, Sent(fd, message));
    }

    /** close: the kernel drops a closed descriptor from the interest list by itself. */
    method Close(fd: int)
      requires Valid()
      modifies this
      ensures Valid() && open == old(open) - {fd} && interest == old(interest) - {fd}
      ensures trace == Then(old(trace), Closed(fd))
    {
      open, interest, trace := open - {fd}, interest - {fd}, Then(trace, Closed(fd));
    }

    /** epoll_ctl ADD: refuses a descriptor that is already watched or not open. */
    method EpollAdd(fd: int) returns (ok: bool)
      requires Valid()
      modifies this`interest
      ensures Valid()
      ensures ok == (fd in open && fd !in old(interest))
      ensures interest == if ok then old(interest) + {fd} else old(interest)
    {
      ok := fd in open && fd !in interest;
      if ok {
        interest := interest + {fd};
      }
    }

    /** epoll_ctl DEL. */
    method EpollDelete(fd: int)
      requires Valid()
      modifies this`interest
      ensures Valid() && interest == old(interest) - {fd}
    {
      interest := interest - {fd};
    }
  }
}
