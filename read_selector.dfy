/**
 * The read-readiness selector of src/crispy/read_selector.h: two backends
 * (a portable one over ::select and a Linux one over epoll) behind the same
 * four operations want_read, cancel_read, wakeup and wait_one.
 *
 * The kernel is not modelled: every kernel call a backend makes is an input
 * (what ::select or epoll_wait reported) and its effect on kernel-side state
 * (the epoll interest table, the eventfd counter) is kept in fields that the
 * methods update the way the kernel would.
 */
module ReadSelector {
  import opened Wrappers

  /** FD_SETSIZE: an fd_set holds the descriptors 0 .. FdSetSize - 1. */
  const FdSetSize: int := 1024

  /** epoll_read_selector::wait_one hands epoll_wait an array of this many events. */
  const MaxEvents: int := 64

  /** A descriptor that FD_SET, FD_CLR and FD_ISSET accept. */
  predicate IsFd(fd: int) {
    0 <= fd < FdSetSize
  }

  /** The values of errno that the selectors produce or pass on. */
  datatype Errno = EAGAIN | EINTR | EBADF | OtherErrno(code: int)

  /**
   * What wait_one returns: a ready descriptor, or `std::nullopt` together
   * with the value errno holds when the call returns.
   */
  datatype WaitResult = Ready(fd: int) | NotReady(errno: Errno)

  // ---------------------------------------------------------------------------
  // Timeout conversion
  // ---------------------------------------------------------------------------

  /** C++ integer division, which truncates toward zero. */
  function TruncDiv(a: int, b: int): int
    requires b > 0
  {
    if a >= 0 then a / b else -((-a) / b)
  }

  /** C++ remainder `%`, which takes the sign of the dividend. */
  function TruncMod(a: int, b: int): int
    requires b > 0
  {
    if a >= 0 then a % b else -((-a) % b)
  }

  /** struct timeval. */
  datatype Timeval = Timeval(sec: int, usec: int)

  /**
   * The timeval that posix_read_selector::wait_one builds from a timeout of
   * `ms` milliseconds: `ms / 1000` seconds and `(ms % 1000) * 1000`
   * microseconds, in C++ arithmetic. It denotes exactly `ms` milliseconds, and
   * for a non-negative timeout the microseconds are in the range select expects.
   */
  function ToTimeval(ms: int): (tv: Timeval)
    ensures tv.sec * 1000000 + tv.usec == ms * 1000
    ensures ms >= 0 ==> tv.sec >= 0 && 0 <= tv.usec < 1000000
    ensures ms < 0 ==> tv.sec <= 0 && -1000000 < tv.usec <= 0
  {
    Timeval(TruncDiv(ms, 1000), TruncMod(ms, 1000) * 1000)
  }

  /** The last argument of ::select: nullptr (wait forever) or the converted timeout. */
  function SelectTimeout(timeout: Option<int>): Option<Timeval> {
    match timeout
    case None => None
    case Some(ms) => Some(ToTimeval(ms))
  }

  /** `static_cast<int>` of a 64-bit count: the value modulo 2^32, read as a signed 32-bit int. */
  function ToInt32(x: int): (r: int)
    ensures -0x8000_0000 <= r < 0x8000_0000
    ensures (r - x) % 0x1_0000_0000 == 0
  {
    var m := x % 0x1_0000_0000;
    if m < 0x8000_0000 then m else m - 0x1_0000_0000
  }

  /** The timeout argument epoll_read_selector::wait_one gives epoll_wait; -1 waits forever. */
  function EpollTimeout(timeout: Option<int>): int {
    match timeout
    case None => -1
    case Some(ms) => ToInt32(ms)
  }

  /** A timeout that fits in an int reaches epoll_wait unchanged, and no timeout is -1. */
  lemma EpollTimeoutExact(timeout: Option<int>)
    ensures timeout.None? ==> EpollTimeout(timeout) == -1
    ensures timeout.Some? && 0 <= timeout.value < 0x8000_0000 ==> EpollTimeout(timeout) == timeout.value
  {
  }

  /**
   * A finite timeout whose count modulo 2^32 is at least 2^31 (from about 24.9
   * days on) becomes negative in the int conversion, which epoll_wait reads as
   * "wait forever": no such wait can time out. A count of 2^32 - 1 more than a
   * multiple of 2^32 becomes exactly -1.
   */
  lemma EpollLongTimeoutWaitsForever(ms: int, o: EpollOutcome, interest: set<int>)
    ensures EpollTimeout(Some(ms)) < 0 <==> ms % 0x1_0000_0000 >= 0x8000_0000
    ensures ms % 0x1_0000_0000 == 0xFFFF_FFFF ==> EpollTimeout(Some(ms)) == -1
    ensures ms % 0x1_0000_0000 >= 0x8000_0000 && ValidEpollOutcome(o, interest, Some(ms)) ==> !o.EpollTimedOut?
  {
  }

  // ---------------------------------------------------------------------------
  // Sequences of descriptors
  // ---------------------------------------------------------------------------

  /** Ascending order, equal values allowed. */
  ghost predicate Sorted(s: seq<int>) {
    forall i, j :: 0 <= i < j < |s| ==> s[i] <= s[j]
  }

  /** `fds` with `fd` put in its ascending position (push_back followed by std::sort). */
  function InsertAscending(fds: seq<int>, fd: int): (r: seq<int>)
    ensures multiset(r) == multiset(fds) + multiset{fd}
    ensures forall x :: x in r <==> x in fds || x == fd
  {
    if fds == [] then [fd]
    else if fd <= fds[0] then [fd] + fds
    else
      assert fds == [fds[0]] + fds[1..];
      [fds[0]] + InsertAscending(fds[1..], fd)
  }

  lemma {:induction false} InsertAscendingSorted(fds: seq<int>, fd: int)
    requires Sorted(fds)
    ensures Sorted(InsertAscending(fds, fd))
  {
    if fds != [] && fd > fds[0] {
      InsertAscendingSorted(fds[1..], fd);
      var tail := InsertAscending(fds[1..], fd);
      forall k | 0 <= k < |tail| ensures fds[0] <= tail[k] {
        assert tail[k] in multiset(tail);
        assert tail[k] in multiset(fds[1..]) + multiset{fd};
        if tail[k] != fd {
          assert tail[k] in fds[1..];
        }
      }
    }
  }

  /** std::remove followed by erase: every occurrence of `fd` dropped, the rest kept in order. */
  function RemoveAll(fds: seq<int>, fd: int): seq<int> {
    if fds == [] then []
    else (if fds[0] == fd then [] else [fds[0]]) + RemoveAll(fds[1..], fd)
  }

  /** Nothing of `fd` is left, and every other descriptor keeps its multiplicity. */
  lemma {:induction false} RemoveAllCounts(fds: seq<int>, fd: int)
    ensures multiset(RemoveAll(fds, fd))[fd] == 0
    ensures forall x :: x != fd ==> multiset(RemoveAll(fds, fd))[x] == multiset(fds)[x]
  {
    if fds != [] {
      RemoveAllCounts(fds[1..], fd);
      assert fds == [fds[0]] + fds[1..];
    }
  }

  /** What remains was there before. */
  lemma {:induction false} RemoveAllSubset(fds: seq<int>, fd: int)
    ensures forall x :: x in RemoveAll(fds, fd) ==> x in fds
  {
    if fds != [] {
      RemoveAllSubset(fds[1..], fd);
      assert fds == [fds[0]] + fds[1..];
    }
  }

  /** What remains keeps the order it had, so ascending descriptors stay ascending. */
  lemma {:induction false} RemoveAllSorted(fds: seq<int>, fd: int)
    requires Sorted(fds)
    ensures Sorted(RemoveAll(fds, fd))
  {
    if fds != [] {
      var tail := RemoveAll(fds[1..], fd);
      assert Sorted(fds[1..]);
      RemoveAllSorted(fds[1..], fd);
      RemoveAllSubset(fds[1..], fd);
      forall k | 0 <= k < |tail| ensures fds[0] <= tail[k] {
        assert tail[k] in tail;
      }
    }
  }

  /**
   * The descriptors of `fds` that are set in `ready`, in the order of `fds`:
   * what the scan at the end of posix_read_selector::wait_one appends.
   */
  function ReadyInOrder(fds: seq<int>, ready: set<int>): seq<int> {
    if fds == [] then []
    else ReadyInOrder(fds[..|fds| - 1], ready) + (if fds[|fds| - 1] in ready then [fds[|fds| - 1]] else [])
  }

  /**
   * The scan loses nothing and invents nothing: a descriptor set in `ready`
   * is queued once per occurrence in `fds` (a descriptor registered twice is
   * queued twice), and one not set is not queued.
   */
  lemma {:induction false} ReadyInOrderCounts(fds: seq<int>, ready: set<int>)
    ensures forall x :: multiset(ReadyInOrder(fds, ready))[x] == if x in ready then multiset(fds)[x] else 0
  {
    if fds != [] {
      var init := fds[..|fds| - 1];
      ReadyInOrderCounts(init, ready);
      assert fds == init + [fds[|fds| - 1]];
    }
  }

  /** Every queued descriptor is a watched one. */
  lemma {:induction false} ReadyInOrderSubset(fds: seq<int>, ready: set<int>)
    ensures forall x :: x in ReadyInOrder(fds, ready) ==> x in fds
  {
    if fds != [] {
      var init := fds[..|fds| - 1];
      ReadyInOrderSubset(init, ready);
      assert fds == init + [fds[|fds| - 1]];
    }
  }

  /** Ascending watched descriptors give an ascending queue. */
  lemma {:induction false} ReadyInOrderSorted(fds: seq<int>, ready: set<int>)
    requires Sorted(fds)
    ensures Sorted(ReadyInOrder(fds, ready))
  {
    if fds != [] {
      var init := fds[..|fds| - 1];
      var last := fds[|fds| - 1];
      assert Sorted(init);
      ReadyInOrderSorted(init, ready);
      ReadyInOrderSubset(init, ready);
      var q := ReadyInOrder(init, ready);
      forall k | 0 <= k < |q| ensures q[k] <= last {
        assert q[k] in q;
      }
    }
  }

  /** The scan finds something whenever `ready` holds a watched descriptor. */
  lemma {:induction false} ReadyInOrderNonEmpty(fds: seq<int>, ready: set<int>)
    requires exists i :: 0 <= i < |fds| && fds[i] in ready
    ensures ReadyInOrder(fds, ready) != []
  {
    var init := fds[..|fds| - 1];
    if fds[|fds| - 1] !in ready {
      assert exists i :: 0 <= i < |init| && init[i] in ready;
      ReadyInOrderNonEmpty(init, ready);
    }
  }

  /** A non-empty subset of the watched descriptors holds one of them. */
  lemma ReadyIsWatched(fds: seq<int>, ready: set<int>, readSet: set<int>)
    requires exists fd :: fd in ready
    requires ready <= readSet && forall fd :: fd in readSet ==> fd in fds
    ensures exists i :: 0 <= i < |fds| && fds[i] in ready
  {
  }

  // ---------------------------------------------------------------------------
  // posix_read_selector
  // ---------------------------------------------------------------------------

  /** What ::select reported. */
  datatype SelectOutcome =
    | SelectTimedOut               // result 0; the kernel clears the fd_sets
    | SelectFailed(errno: Errno)   // result -1; the fd_sets are left as they were
    | SelectReady(ready: set<int>) // result |ready| > 0; `ready` is written back into the read set

  /** A ::select call: the width argument, the read set passed in and the timeout. */
  datatype SelectCall = SelectCall(nfds: int, readSet: set<int>, timeout: Option<Timeval>)

  /**
   * The kernel reports only descriptors of the read set it was given, and at
   * least one. With a null timeval ::select never times out, and a negative
   * timeval fails with EINVAL instead of timing out.
   */
  predicate ValidSelectOutcome(os: SelectOutcome, readSet: set<int>, timeout: Option<int>) {
    && (os.SelectReady? ==> (exists fd :: fd in os.ready) && os.ready <= readSet)
    && (os.SelectTimedOut? ==> timeout.Some? && timeout.value >= 0)
  }

  /** FD_ISSET is defined only for a descriptor FD_SET accepts. */
  predicate FdIssetDefined(fd: int) {
    IsFd(fd)
  }

  /**
   * The break-pipe test of wait_one as evidently intended: skipped while the
   * pipe is not open, and FD_ISSET wherever FD_ISSET is defined.
   */
  function BreakPipeSignalled(breakPipeRead: int, readSet: set<int>): (signalled: bool)
    ensures signalled ==> FdIssetDefined(breakPipeRead)
    ensures breakPipeRead == -1 ==> !signalled
    ensures FdIssetDefined(breakPipeRead) ==> (signalled <==> breakPipeRead in readSet)
  {
    FdIssetDefined(breakPipeRead) && breakPipeRead in readSet
  }

  /** The bits FD_SET sets for each descriptor of `fds` in turn. */
  function Bits(fds: seq<int>): set<int> {
    if fds == [] then {} else Bits(fds[..|fds| - 1]) + {fds[|fds| - 1]}
  }

  lemma {:induction false} BitsMembers(fds: seq<int>)
    ensures forall fd :: fd in Bits(fds) <==> fd in fds
  {
    if fds != [] {
      var init := fds[..|fds| - 1];
      BitsMembers(init);
      assert fds == init + [fds[|fds| - 1]];
    }
  }

  /** want_read keeps every watched descriptor inside the fd_set range. */
  lemma InsertAscendingFds(fds: seq<int>, fd: int)
    requires IsFd(fd) && forall i :: 0 <= i < |fds| ==> IsFd(fds[i])
    ensures forall i :: 0 <= i < |InsertAscending(fds, fd)| ==> IsFd(InsertAscending(fds, fd)[i])
  {
    var r := InsertAscending(fds, fd);
    forall i | 0 <= i < |r| ensures IsFd(r[i]) {
      assert r[i] in r;
    }
  }

  /**
   * cancel_read keeps every watched descriptor inside the fd_set range, and
   * every bit left in the read set still belongs to a watched descriptor.
   */
  lemma RemoveAllFds(fds: seq<int>, fd: int, reader: set<int>)
    requires forall i :: 0 <= i < |fds| ==> IsFd(fds[i])
    requires forall x :: x in reader ==> x in fds
    ensures forall i :: 0 <= i < |RemoveAll(fds, fd)| ==> IsFd(RemoveAll(fds, fd)[i])
    ensures forall x :: x in reader - {fd} ==> x in RemoveAll(fds, fd)
  {
    var r := RemoveAll(fds, fd);
    RemoveAllSubset(fds, fd);
    RemoveAllCounts(fds, fd);
    forall i | 0 <= i < |r| ensures IsFd(r[i]) {
      assert r[i] in r;
    }
    forall x | x in reader - {fd} ensures x in r {
      assert multiset(r)[x] == multiset(fds)[x];
    }
  }

  /** Portable backend over ::select. */
  class PosixReadSelector {
    /** `_reader`: the read fd_set, as the set of its bits. ::select overwrites it. */
    var reader: set<int>
    /** `_fds`: every want_read argument, ascending, duplicates kept. */
    var fds: seq<int>
    /** `_pending`: descriptors found ready and not yet returned, oldest first. */
    var pending: seq<int>
    /** `_breakPipe[0]` and `_breakPipe[1]`: initialised to -1 and never opened. */
    var breakPipeRead: int
    var breakPipeWrite: int
    /** Bytes written into the break pipe (kernel side). */
    ghost var pipeBytes: nat
    /** Every ::select call made so far. */
    ghost var calls: seq<SelectCall>

    ghost predicate Valid()
      reads this
    {
      && Sorted(fds)
      && (forall i :: 0 <= i < |fds| ==> IsFd(fds[i]))
      && (forall fd :: fd in reader ==> fd in fds)
      && (forall i :: 0 <= i < |pending| ==> IsFd(pending[i]))
      && breakPipeRead == -1 && breakPipeWrite == -1
    }

    /** The default-constructed selector watches nothing. */
    constructor ()
      ensures Valid()
      ensures reader == {} && fds == [] && pending == [] && calls == []
    {
      reader, fds, pending := {}, [], [];
      breakPipeRead, breakPipeWrite := -1, -1;
      pipeBytes := 0;
      calls := [];
    }

    /** posix_read_selector::create: a default-constructed selector with want_read applied to each of `initial`. */
    static method Create(initial: seq<int>) returns (selector: PosixReadSelector)
      requires forall i :: 0 <= i < |initial| ==> IsFd(initial[i])
      ensures fresh(selector) && selector.Valid()
      ensures Sorted(selector.fds) && multiset(selector.fds) == multiset(initial)
      ensures forall fd :: fd in selector.reader <==> fd in initial
      ensures selector.pending == [] && selector.calls == []
    {
      selector := new PosixReadSelector();
      var i := 0;
      while i < |initial|
        invariant 0 <= i <= |initial|
        invariant fresh(selector) && selector.Valid()
        invariant multiset(selector.fds) == multiset(initial[..i])
        invariant selector.reader == Bits(initial[..i])
        invariant selector.pending == [] && selector.calls == []
      {
        assert initial[..i + 1] == initial[..i] + [initial[i]];
        selector.WantRead(initial[i]);
        i := i + 1;
      }
      assert initial[..i] == initial;
      BitsMembers(initial);
    }

    /** want_read: set the bit, append the descriptor and sort. Duplicates are not removed. */
    method WantRead(fd: int)
      requires Valid() && IsFd(fd)
      modifies this
      ensures Valid()
      ensures reader == old(reader) + {fd}
      ensures fds == InsertAscending(old(fds), fd)
      ensures Sorted(fds) && multiset(fds) == old(multiset(fds)) + multiset{fd}
      ensures pending == old(pending) && calls == old(calls) && pipeBytes == old(pipeBytes)
    {
      InsertAscendingSorted(fds, fd);
      InsertAscendingFds(fds, fd);
      reader := reader + {fd};
      fds := InsertAscending(fds, fd);
    }

    /** cancel_read: clear the bit and erase every occurrence. Pending entries are not purged. */
    method CancelRead(fd: int)
      requires Valid()
      modifies this
      ensures Valid()
      ensures reader == old(reader) - {fd}
      ensures fds == RemoveAll(old(fds), fd)
      ensures pending == old(pending) && calls == old(calls) && pipeBytes == old(pipeBytes)
    {
      RemoveAllSorted(fds, fd);
      RemoveAllFds(fds, fd, reader);
      reader := reader - {fd};
      fds := RemoveAll(fds, fd);
    }

    /**
     * wakeup: writes one byte to the break pipe if it is open. In a valid
     * selector it never is, so wakeup changes nothing.
     */
    method Wakeup()
      modifies this`pipeBytes
      ensures pipeBytes == old(pipeBytes) + (if breakPipeWrite != -1 then 1 else 0)
      ensures old(Valid()) ==> unchanged(this)
    {
      if breakPipeWrite != -1 {
        pipeBytes := pipeBytes + 1;
      }
    }

    /** try_pop_pending: the oldest pending descriptor, or nullopt with errno = EAGAIN. */
    method TryPopPending() returns (r: WaitResult)
      requires Valid()
      modifies this`pending
      ensures Valid()
      ensures old(pending) != [] ==> r == Ready(old(pending)[0]) && pending == old(pending)[1..]
      ensures old(pending) == [] ==> r == NotReady(EAGAIN) && pending == []
    {
      if pending == [] {
        return NotReady(EAGAIN);
      }
      r := Ready(pending[0]);
      pending := pending[1..];
    }

    /** The scan at the end of wait_one: queue every watched descriptor set in `readSet`. */
    method Scan(readSet: set<int>)
      requires Valid() && pending == []
      modifies this`pending
      ensures Valid()
      ensures pending == ReadyInOrder(fds, readSet)
    {
      var i := 0;
      while i < |fds|
        invariant 0 <= i <= |fds|
        invariant pending == ReadyInOrder(fds[..i], readSet)
      {
        assert fds[..i + 1][..i] == fds[..i];
        if fds[i] in readSet {
          pending := pending + [fds[i]];
        }
        i := i + 1;
      }
      assert fds[..i] == fds;
      ReadyInOrderSubset(fds, readSet);
      ReadyInOrderSorted(fds, readSet);
      forall k | 0 <= k < |pending| ensures IsFd(pending[k]) {
        assert pending[k] in pending;
      }
    }

    /**
     * wait_one, where `os` is what ::select reports if it is called.
     * A pending descriptor is returned without calling the kernel. Otherwise
     * one ::select call is made over the whole read set; the set it writes
     * back becomes the new read set; every watched descriptor in it is queued
     * in ascending order and the first of them is returned.
     */
    method WaitOne(timeout: Option<int>, os: SelectOutcome) returns (r: WaitResult)
      requires Valid() && |fds| > 0
      requires ValidSelectOutcome(os, reader, timeout)
      modifies this
      ensures Valid()
      ensures fds == old(fds) && pipeBytes == old(pipeBytes)
      ensures old(pending) != [] ==>
        && r == Ready(old(pending)[0]) && pending == old(pending)[1..]
        && reader == old(reader) && calls == old(calls)
      ensures old(pending) == [] ==>
        && calls == old(calls) + [SelectCall(fds[|fds| - 1] + 1, old(reader), SelectTimeout(timeout))]
        && (os.SelectTimedOut? ==> r == NotReady(EAGAIN) && pending == [] && reader == {})
        && (os.SelectFailed? ==> r == NotReady(os.errno) && pending == [] && reader == old(reader))
        && (os.SelectReady? ==>
              var queued := ReadyInOrder(fds, os.ready);
              && reader == os.ready
              && queued != []
              && r == Ready(queued[0]) && pending == queued[1..])
    {
      if os.SelectReady? {
        ReadyIsWatched(fds, os.ready, reader);
      }
      r := TryPopPending();
      if r.Ready? {
        return;
      }
      var tv := SelectTimeout(timeout);
      calls := calls + [SelectCall(fds[|fds| - 1] + 1, reader, tv)];
      if os.SelectTimedOut? {
        reader := {};
        return;
      } else if os.SelectFailed? {
        return NotReady(os.errno);
      }
      reader := os.ready;
      if BreakPipeSignalled(breakPipeRead, reader) {
        // Drain the pipe until read fails; errno is left at EBADF.
        return NotReady(EBADF);
      }
      ReadyInOrderNonEmpty(fds, reader);
      Scan(reader);
      r := TryPopPending();
    }

    /**
     * As written, wait_one tests `FD_ISSET(_breakPipe[0], &_reader)` after
     * every successful ::select, and `_breakPipe[0]` is always -1: the test
     * is outside FD_ISSET's domain. The model takes it as false, which is what
     * BreakPipeSignalled computes.
     */
    lemma BreakPipeTestUndefined()
      requires Valid()
      ensures !FdIssetDefined(breakPipeRead)
      ensures forall readSet: set<int> :: !BreakPipeSignalled(breakPipeRead, readSet)
    {
    }

    /**
     * wait_one with ::select given a copy of the read set, as evidently
     * intended: the watched bits survive the call, so every later ::select
     * watches the same descriptors.
     */
    method WaitOneOnCopy(timeout: Option<int>, os: SelectOutcome) returns (r: WaitResult)
      requires Valid() && |fds| > 0
      requires ValidSelectOutcome(os, reader, timeout)
      modifies this
      ensures Valid()
      ensures fds == old(fds) && reader == old(reader) && pipeBytes == old(pipeBytes)
      ensures old(pending) != [] ==>
        && r == Ready(old(pending)[0]) && pending == old(pending)[1..] && calls == old(calls)
      ensures old(pending) == [] ==>
        && calls == old(calls) + [SelectCall(fds[|fds| - 1] + 1, reader, SelectTimeout(timeout))]
        && (os.SelectTimedOut? ==> r == NotReady(EAGAIN) && pending == [])
        && (os.SelectFailed? ==> r == NotReady(os.errno) && pending == [])
        && (os.SelectReady? ==>
              var queued := ReadyInOrder(fds, os.ready);
              && queued != []
              && r == Ready(queued[0]) && pending == queued[1..])
    {
      if os.SelectReady? {
        ReadyIsWatched(fds, os.ready, reader);
      }
      r := TryPopPending();
      if r.Ready? {
        return;
      }
      calls := calls + [SelectCall(fds[|fds| - 1] + 1, reader, SelectTimeout(timeout))];
      if os.SelectTimedOut? {
        return;
      } else if os.SelectFailed? {
        return NotReady(os.errno);
      }
      var ready := os.ready;
      if BreakPipeSignalled(breakPipeRead, ready) {
        return NotReady(EBADF);
      }
      ReadyInOrderNonEmpty(fds, ready);
      Scan(ready);
      r := TryPopPending();
    }
  }

  /**
   * As written, the read set ::select writes back is the one the next call is
   * given. Watching 5 and 9: a wait on which only 5 is ready leaves 9 out of
   * the next ::select, and a timed-out wait after it leaves nothing watched.
   */
  method ReadSetShrinks() returns (watched: seq<int>, afterReady: set<int>, afterTimeout: set<int>)
    ensures watched == [5, 9] && afterReady == {5} && afterTimeout == {}
  {
    var selector := new PosixReadSelector();
    selector.WantRead(9);
    selector.WantRead(5);
    assert selector.fds == [5, 9];
    var first := selector.WaitOne(None, SelectReady({5}));
    assert ReadyInOrder([5, 9], {5}) == [5] by {
      assert [5, 9][..1] == [5];
      assert [5][..0] == [];
    }
    afterReady := selector.reader;
    var second := selector.WaitOne(Some(10), SelectTimedOut);
    watched, afterTimeout := selector.fds, selector.reader;
  }

  /** With ::select on a copy, the same two waits leave both descriptors watched. */
  method ReadSetKept() returns (watched: seq<int>, afterReady: set<int>, afterTimeout: set<int>)
    ensures watched == [5, 9] && afterReady == {5, 9} && afterTimeout == {5, 9}
  {
    var selector := new PosixReadSelector();
    selector.WantRead(9);
    selector.WantRead(5);
    assert selector.fds == [5, 9];
    var first := selector.WaitOneOnCopy(None, SelectReady({5}));
    assert ReadyInOrder([5, 9], {5}) == [5] by {
      assert [5, 9][..1] == [5];
      assert [5][..0] == [];
    }
    afterReady := selector.reader;
    var second := selector.WaitOneOnCopy(Some(10), SelectTimedOut);
    watched, afterTimeout := selector.fds, selector.reader;
  }

  // ---------------------------------------------------------------------------
  // epoll_read_selector
  // ---------------------------------------------------------------------------

  /** What one epoll_wait call reported. */
  datatype EpollOutcome =
    | EpollTimedOut               // result 0
    | EpollFailed(errno: Errno)   // result -1
    | EpollReady(events: seq<int>) // result |events| > 0: the data.fd of each event, in report order

  predicate Interrupted(o: EpollOutcome) {
    o.EpollFailed? && o.errno == EINTR
  }

  /** Some call of the script is not interrupted by a signal, so the retry loop ends. */
  predicate Decisive(os: seq<EpollOutcome>) {
    |os| > 0 && (!Interrupted(os[0]) || Decisive(os[1..]))
  }

  /** The position of the first call that is not interrupted by a signal. */
  function FirstDecisive(os: seq<EpollOutcome>): (k: nat)
    requires Decisive(os)
    ensures k < |os| && !Interrupted(os[k])
    ensures forall j :: 0 <= j < k ==> Interrupted(os[j])
  {
    if !Interrupted(os[0]) then 0 else 1 + FirstDecisive(os[1..])
  }

  /**
   * The kernel reports between 1 and 64 events per call, each for a
   * registered descriptor; with a negative timeout epoll_wait never times out.
   */
  predicate ValidEpollOutcome(o: EpollOutcome, interest: set<int>, timeout: Option<int>) {
    && (o.EpollReady? ==>
          && 1 <= |o.events| <= MaxEvents
          && forall i :: 0 <= i < |o.events| ==> o.events[i] in interest)
    && (o.EpollTimedOut? ==> EpollTimeout(timeout) >= 0)
  }

  /** The reported descriptors other than the eventfd, in report order. */
  function Queued(events: seq<int>, eventFd: int): seq<int> {
    if events == [] then []
    else Queued(events[..|events| - 1], eventFd)
         + (if events[|events| - 1] == eventFd then [] else [events[|events| - 1]])
  }

  /** The eventfd never reaches the queue, and every other reported descriptor does. */
  lemma {:induction false} QueuedProperties(events: seq<int>, eventFd: int)
    ensures eventFd !in Queued(events, eventFd)
    ensures forall x :: x != eventFd ==> multiset(Queued(events, eventFd))[x] == multiset(events)[x]
    ensures forall x :: x in Queued(events, eventFd) ==> x in events
  {
    if events != [] {
      var init := events[..|events| - 1];
      QueuedProperties(init, eventFd);
      assert events == init + [events[|events| - 1]];
    }
  }

  /** One more reported event, for the triage loop. */
  lemma TriageStep(events: seq<int>, j: nat, eventFd: int)
    requires j < |events|
    ensures Queued(events[..j + 1], eventFd)
            == Queued(events[..j], eventFd) + (if events[j] == eventFd then [] else [events[j]])
    ensures multiset(events[..j + 1])[eventFd]
            == multiset(events[..j])[eventFd] + (if events[j] == eventFd then 1 else 0)
    ensures (eventFd in events[..j + 1]) == (eventFd in events[..j] || events[j] == eventFd)
  {
    assert events[..j + 1][..j] == events[..j];
    assert events[..j + 1] == events[..j] + [events[j]];
  }

  /**
   * The `piped` flag after triage: each eventfd entry reads the counter, which
   * succeeds only while it is non-zero, and the flag keeps the last read's
   * outcome. In a batch that holds the eventfd once (epoll's own behaviour),
   * it is set exactly when a wakeup was pending.
   */
  function Piped(events: seq<int>, eventFd: int, counter: nat): bool {
    multiset(events)[eventFd] == 1 && counter > 0
  }

  /** Linux backend over epoll and an eventfd. */
  class EpollReadSelector {
    /** `_epollFd` and `_eventFd`. */
    const epollFd: int
    const eventFd: int
    /** `_pending`. */
    var pending: seq<int>
    /** Kernel side: the descriptors registered in the epoll table. */
    var interest: set<int>
    /** Kernel side: the eventfd counter. */
    var counter: nat
    /** Whether the two owned descriptors are open. */
    ghost var open: bool
    /** The timeout argument of every epoll_wait call made so far. */
    ghost var waits: seq<int>

    ghost predicate Valid()
      reads this
    {
      open && epollFd != -1 && eventFd != -1 && epollFd != eventFd && eventFd in interest
      && eventFd !in pending
    }

    /**
     * The constructor, given the descriptors that epoll_create1 and eventfd
     * returned: both must have succeeded (the Require checks) and the eventfd
     * is registered for reading.
     */
    constructor (epollDescriptor: int, eventDescriptor: int)
      requires epollDescriptor != -1 && eventDescriptor != -1 && epollDescriptor != eventDescriptor
      ensures Valid()
      ensures epollFd == epollDescriptor && eventFd == eventDescriptor
      ensures interest == {eventDescriptor} && counter == 0 && pending == [] && waits == []
    {
      epollFd, eventFd := epollDescriptor, eventDescriptor;
      pending := [];
      interest := {eventDescriptor};
      counter := 0;
      open := true;
      waits := [];
    }

    /** The destructor: closes the epoll and eventfd descriptors, never a caller's. */
    method Close()
      requires Valid()
      modifies this
      ensures !open
      ensures pending == old(pending) && interest == old(interest) && counter == old(counter)
    {
      open := false;
    }

    /** want_read: EPOLL_CTL_ADD for reading; adding a registered descriptor again changes nothing. */
    method WantRead(fd: int)
      requires Valid() && fd != eventFd && fd != epollFd
      modifies this`interest
      ensures Valid()
      ensures interest == old(interest) + {fd}
    {
      interest := interest + {fd};
    }

    /** cancel_read: EPOLL_CTL_DEL. Pending entries are not purged. */
    method CancelRead(fd: int)
      requires Valid() && fd != eventFd && fd != epollFd
      modifies this`interest
      ensures Valid()
      ensures interest == old(interest) - {fd}
    {
      interest := interest - {fd};
    }

    /** wakeup: writes 1 to the eventfd, which adds 1 to its counter. */
    method Wakeup()
      requires Valid()
      modifies this`counter
      ensures Valid()
      ensures counter == old(counter) + 1
    {
      counter := counter + 1;
    }

    /** try_pop_pending: the oldest pending descriptor, if any; errno is not touched. */
    method TryPopPending() returns (r: Option<int>)
      requires Valid()
      modifies this`pending
      ensures Valid()
      ensures old(pending) != [] ==> r == Some(old(pending)[0]) && pending == old(pending)[1..]
      ensures old(pending) == [] ==> r == None && pending == []
    {
      if pending == [] {
        return None;
      }
      r := Some(pending[0]);
      pending := pending[1..];
    }

    /**
     * The triage loop of wait_one over one batch of reported events: the
     * eventfd entry reads (and so resets) the counter and sets `piped` to
     * whether the read succeeded; every other entry is queued.
     */
    method Triage(events: seq<int>) returns (piped: bool)
      requires Valid() && pending == []
      modifies this`pending, this`counter
      ensures Valid()
      ensures pending == Queued(events, eventFd)
      ensures counter == if eventFd in events then 0 else old(counter)
      ensures piped == Piped(events, eventFd, old(counter))
    {
      piped := false;
      var j := 0;
      while j < |events|
        invariant 0 <= j <= |events|
        invariant pending == Queued(events[..j], eventFd)
        invariant piped == Piped(events[..j], eventFd, old(counter))
        invariant counter == if eventFd in events[..j] then 0 else old(counter)
      {
        TriageStep(events, j, eventFd);
        if events[j] == eventFd {
          // ::read of the eventfd returns 8 bytes and resets the counter if it is non-zero.
          piped := counter > 0;
          counter := 0;
        } else {
          pending := pending + [events[j]];
        }
        j := j + 1;
      }
      assert events[..j] == events;
      QueuedProperties(events, eventFd);
    }

    /**
     * wait_one, where `os` lists what successive epoll_wait calls report.
     * A pending descriptor is returned without calling the kernel. Otherwise
     * epoll_wait is called until a call is not interrupted by a signal. A
     * timeout gives EAGAIN and another failure its own errno. Reported
     * events are triaged: the eventfd entry drains the counter and sets
     * `piped`; every other entry is queued in report order. A queued
     * descriptor is returned in preference to a wakeup; with nothing queued
     * errno is EINTR after a successful drain and EAGAIN otherwise.
     */
    method WaitOne(timeout: Option<int>, os: seq<EpollOutcome>) returns (r: WaitResult)
      requires Valid()
      requires Decisive(os)
      requires forall k :: 0 <= k < |os| ==> ValidEpollOutcome(os[k], interest, timeout)
      modifies this`pending, this`counter, this`waits
      ensures Valid()
      ensures old(pending) != [] ==>
        && r == Ready(old(pending)[0]) && pending == old(pending)[1..]
        && counter == old(counter) && waits == old(waits)
      ensures old(pending) == [] ==>
        var k := FirstDecisive(os);
        && waits == old(waits) + seq(k + 1, _ => EpollTimeout(timeout))
        && (os[k].EpollTimedOut? ==> r == NotReady(EAGAIN) && pending == [] && counter == old(counter))
        && (os[k].EpollFailed? ==> r == NotReady(os[k].errno) && pending == [] && counter == old(counter))
        && (os[k].EpollReady? ==>
              var events := os[k].events;
              var queued := Queued(events, eventFd);
              && counter == (if eventFd in events then 0 else old(counter))
              && (queued != [] ==> r == Ready(queued[0]) && pending == queued[1..])
              && (queued == [] ==>
                    && pending == []
                    && r == NotReady(if Piped(events, eventFd, old(counter)) then EINTR else EAGAIN)))
    {
      var popped := TryPopPending();
      if popped.Some? {
        return Ready(popped.value);
      }
      var arg := EpollTimeout(timeout);
      var i := 0;
      while true
        invariant 0 <= i < |os| && Decisive(os[i..])
        invariant FirstDecisive(os) == i + FirstDecisive(os[i..])
        invariant waits == old(waits) + seq(i, _ => arg)
        invariant pending == [] && counter == old(counter)
        invariant Valid()
        decreases |os| - i
      {
        var outcome := os[i];
        waits := waits + [arg];
        assert seq(i, _ => arg) + [arg] == seq(i + 1, _ => arg);
        match outcome {
          case EpollTimedOut =>
            return NotReady(EAGAIN);
          case EpollFailed(e) =>
            if e == EINTR {
              assert os[i..][1..] == os[i + 1..];
              i := i + 1;
              continue;
            }
            return NotReady(e);
          case EpollReady(events) =>
            var piped := Triage(events);
            popped := TryPopPending();
            if popped.Some? {
              return Ready(popped.value);
            }
            return NotReady(if piped then EINTR else EAGAIN);
        }
      }
    }
  }
}
