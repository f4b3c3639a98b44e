/** The resource ledger that every audit step is charged to. A Python exception
    is an `Outcome` other than `Done`; the clock is free to pass the deadline at
    any check. */
module Ledger {

  const MAX_BYTES := 64 * 1024 * 1024
  const MAX_VIEW_HEAP := 64 * 1024 * 1024
  const MAX_MOUNT_IO := 1024 * 1024 * 1024
  const MAX_MOUNT_TEXT := 8 * 1024 * 1024
  const MAX_GROUP_FDS := 768
  const HANDLE := 512

  datatype Reason =
    | Deadline | ByteLimit | TextLimit | LineLimit | FdLimit
    | BadPathShape | MountShape | AmbiguousMountPath | MountJoinUnknown | ProcessIdentityDrift | HostError

  datatype Outcome = Done | Refused(reason: Reason)

  /** A refusal that only a limit or the clock can cause. */
  predicate OutOfBudget(o: Outcome) {
    o == Refused(Deadline) || o == Refused(ByteLimit)
  }

  class Budget {
    var bytes: nat
    var textBytes: nat
    var mountIo: nat
    var mountIoExhausted: bool
    var viewHeap: int
    var viewHeapPeak: int
    var groupFds: int
    /** Descriptors this audit opened, with the identity seen at opening. */
    var owned: map<nat, nat>

    ghost predicate Valid()
      reads this
    {
      0 <= viewHeap <= MAX_VIEW_HEAP && viewHeap <= viewHeapPeak <= MAX_VIEW_HEAP && 0 <= groupFds <= MAX_GROUP_FDS
    }

    constructor ()
      ensures Valid() && viewHeap == 0 && groupFds == 0 && owned == map[]
    {
      bytes, textBytes, mountIo, mountIoExhausted := 0, 0, 0, false;
      viewHeap, viewHeapPeak, groupFds, owned := 0, 0, 0, map[];
    }

    method Check() returns (o: Outcome)
      ensures o == Done || o == Refused(Deadline)
    {
      var late: bool := *;
      o := if late then Refused(Deadline) else Done;
    }

    method Charge(size: nat) returns (o: Outcome)
      modifies this`bytes
      ensures o == Done || OutOfBudget(o)
      ensures o == Refused(Deadline) ==> bytes == old(bytes)
      ensures o != Refused(Deadline) ==> bytes == old(bytes) + size && (o == Done <==> bytes <= MAX_BYTES)
    {
      o := Check();
      if o == Done {
        bytes := bytes + size;
        if bytes > MAX_BYTES { o := Refused(ByteLimit); }
      }
    }

    method HeapReserve(size: int) returns (o: Outcome)
      requires Valid()
      modifies this`viewHeap, this`viewHeapPeak
      ensures Valid()
      ensures o == Done || OutOfBudget(o)
      ensures viewHeap == old(viewHeap) + (if o == Done then size else 0)
      ensures o == Done ==> size >= 0
      ensures o != Refused(Deadline) ==> (o == Done <==> size >= 0 && old(viewHeap) + size <= MAX_VIEW_HEAP)
      ensures viewHeapPeak == if old(viewHeapPeak) < viewHeap then viewHeap else old(viewHeapPeak)
    {
      o := Check();
      if o == Done {
        if size < 0 || viewHeap + size > MAX_VIEW_HEAP { return Refused(ByteLimit); }
        viewHeap := viewHeap + size;
        viewHeapPeak := if viewHeapPeak < viewHeap then viewHeap else viewHeapPeak;
      }
    }

    /** The underflow refusal is part of the method; that callers never meet it
        is proved where they call, by showing `o == Done`. */
    method HeapRelease(size: int) returns (o: Outcome)
      requires Valid()
      modifies this`viewHeap
      ensures Valid()
      ensures o == if 0 <= size <= old(viewHeap) then Done else Refused(ByteLimit)
      ensures viewHeap == old(viewHeap) - (if o == Done then size else 0)
    {
      if size < 0 || size > viewHeap { return Refused(ByteLimit); }
      viewHeap := viewHeap - size;
      o := Done;
    }

    /** Takes custody of an open descriptor, or closes it again. */
    method Own(fd: nat, identity: nat) returns (o: Outcome)
      requires Valid() && fd !in owned
      modifies this`bytes, this`viewHeap, this`viewHeapPeak, this`owned
      ensures Valid()
      ensures o == Done ==> owned == old(owned)[fd := identity] && viewHeap == old(viewHeap) + HANDLE
      ensures o != Done ==> owned == old(owned) && viewHeap == old(viewHeap)
    {
      o := Charge(512);
      if o != Done { return; }
      var readable: bool := *;
      if !readable { return Refused(HostError); }
      o := HeapReserve(512);
      if o != Done { return; }
      owned := owned[fd := identity];
    }

    /** Forgets the descriptor first; the host's own close may still fail. */
    method Close(fd: nat, fails: bool) returns (o: Outcome)
      requires Valid()
      requires fd in owned ==> viewHeap >= HANDLE
      modifies this`viewHeap, this`owned
      ensures Valid()
      ensures o == if fails then Refused(HostError) else Done
      ensures owned == old(owned) - {fd}
      ensures viewHeap == old(viewHeap) - (if fd in old(owned) then HANDLE else 0)
    {
      if fd in owned {
        owned := owned - {fd};
        o := HeapRelease(512);
        assert o == Done;
      }
      o := if fails then Refused(HostError) else Done;
    }

    /** The host never hands out a number that is still open. */
    method OpenFd() returns (fd: nat)
      ensures fd !in owned
    {
      NotAllOwned(owned.Keys);
      fd :| fd !in owned;
    }
  }

  lemma {:induction false} NotAllOwned(s: set<nat>)
    ensures exists n: nat :: n !in s
  {
    var bound := UpperBound(s);
    assert bound !in s;
  }

  lemma {:induction false} UpperBound(s: set<nat>) returns (bound: nat)
    ensures forall n :: n in s ==> n < bound
  {
    if s == {} {
      bound := 0;
    } else {
      var x :| x in s;
      var rest := UpperBound(s - {x});
      bound := if rest <= x then x + 1 else rest;
      assert forall n :: n in s ==> n == x || n in s - {x};
    }
  }
}
