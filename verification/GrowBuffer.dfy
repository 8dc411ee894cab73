/** Pool blocks and the buffers that grow until a firmware call is satisfied
    (gnu-efi/lib/misc.c, gnu-efi/lib/hand.c). */
module Buffers {
  import opened Common

  type Block = array<Byte>

  datatype Status = Success | Warning(code: nat) | BufferTooSmall | OutOfResources | Failure(code: nat)
  {
    /** EFI_ERROR */
    predicate IsError() { !Success? && !Warning? }
  }

  /** What the firmware says to one call: a status, the size it reports, and the bytes it has for
      the buffer. */
  datatype Answer = Answer(status: Status, size: nat, data: seq<Byte>)

  function Held(b: array?<Byte>): set<Block> {
    if b == null then {} else {b}
  }

  // ----- The pool -----

  class Pool {
    /** The blocks that have been allocated and not freed. */
    var live: set<Block>
    var requests: nat
    /** Whether the firmware grants each request, in order. */
    const grants: nat -> bool

    constructor (answers: nat -> bool)
      ensures live == {} && requests == 0 && grants == answers
    {
      live, requests, grants := {}, 0, answers;
    }

    method AllocatePool(size: nat) returns (p: array?<Byte>)
      modifies this
      ensures requests == old(requests) + 1
      ensures p != null <==> grants(old(requests))
      ensures p != null ==> fresh(p) && p.Length == size
      ensures live == old(live) + Held(p)
    {
      requests := requests + 1;
      if grants(requests - 1) {
        p := new Byte[size](_ => 0);
        live := live + {p};
      } else {
        p := null;
      }
    }

    /** Only a block that is live can be freed. */
    method FreePool(p: Block)
      requires p in live
      modifies this`live
      ensures live == old(live) - {p}
    {
      live := live - {p};
    }

    method ReallocatePool(oldPool: array?<Byte>, oldSize: nat, newSize: nat) returns (newPool: array?<Byte>)
      requires oldPool != null ==> oldPool in live && oldSize <= oldPool.Length
      modifies this
      ensures newPool != null <==> newSize > 0 && grants(old(requests))
      ensures newPool != null ==> fresh(newPool) && newPool.Length == newSize
      ensures newPool != null && oldPool != null ==>
                var n := if oldSize < newSize then oldSize else newSize;
                newPool[..n] == oldPool[..n]
      ensures live == old(live) - Held(oldPool) + Held(newPool)
    {
      newPool := null;
      if newSize > 0 {
        newPool := AllocatePool(newSize);
      }
      if oldPool != null {
        if newPool != null {
          CopyMem(newPool, 0, oldPool, 0, if oldSize < newSize then oldSize else newSize);
        }
        FreePool(oldPool);
      }
    }

    /** After a call that gave `status`, either there is a new buffer of the size asked for and
        the call is to be made again, or the call is over and an error leaves no buffer. */
    method GrowBuffer(status0: Status, buffer0: array?<Byte>, size: nat)
      returns (again: bool, status: Status, buffer: array?<Byte>)
      requires buffer0 != null ==> buffer0 in live
      modifies this
      ensures var retry := status0 == BufferTooSmall || (buffer0 == null && size > 0);
              && again == (retry && grants(old(requests)))
              && requests == old(requests) + (if retry then 1 else 0)
              && (!again ==> status == if retry then OutOfResources else status0)
      ensures again ==> buffer != null && fresh(buffer) && buffer.Length == size
      ensures !again ==> buffer == if status.Success? || status.Warning? then buffer0 else null
      ensures live == old(live) - Held(buffer0) + Held(buffer)
    {
      status, buffer := status0, buffer0;
      if buffer == null && size > 0 {
        status := BufferTooSmall;
      }
      again := false;
      if status == BufferTooSmall {
        if buffer != null {
          FreePool(buffer);
        }
        buffer := AllocatePool(size);
        if buffer != null {
          again := true;
        } else {
          status := OutOfResources;
        }
      }
      if !again && status.IsError() && buffer != null {
        FreePool(buffer);
        buffer := null;
      }
    }
  }

  // ----- The loop around a firmware call -----

  /** What fits of the data. */
  function Fitting(data: seq<Byte>, size: nat): seq<Byte> {
    if |data| <= size then data else data[..size]
  }

  /** The firmware may only be given a live block of the size it is told. */
  method FirmwareCall(pool: Pool, a: Answer, buffer: Block, size0: nat) returns (status: Status, size: nat)
    requires buffer in pool.live && buffer.Length == size0
    modifies buffer
    ensures status == a.status && size == a.size
    ensures !status.IsError() ==> Fitting(a.data, size0) <= buffer[..]
  {
    if !a.status.IsError() {
      var data := Fitting(a.data, size0);
      forall i | 0 <= i < |data| {
        buffer[i] := data[i];
      }
    }
    return a.status, a.size;
  }

  /** The size of the buffer for call `i`. */
  function SizeAt(answers: nat -> Answer, start: nat, i: nat): nat {
    if i == 0 then start else answers(i - 1).size
  }

  /** How a loop that made `calls` calls can have gone on: every request was granted and every
      call but the last asked for more space. `first` is the first of its pool requests. */
  ghost predicate Met(answers: nat -> Answer, grants: nat -> bool, first: nat, calls: nat) {
    && (forall i :: first <= i < first + calls ==> grants(i))
    && (forall i :: 0 <= i < calls - 1 ==> answers(i).status == BufferTooSmall)
  }

  /** How it can have ended: with the last call's answer, or with a request refused. */
  ghost predicate Ended(answers: nat -> Answer, grants: nat -> bool, first: nat, start: nat,
                        calls: nat, status: Status, size: nat)
  {
    if calls > 0 && answers(calls - 1).status != BufferTooSmall then
      status == answers(calls - 1).status && size == answers(calls - 1).size
    else
      status == OutOfResources && !grants(first + calls) && size == SizeAt(answers, start, calls)
  }

  /** The buffer has the size given to the last call, and holds what the firmware wrote. */
  ghost predicate Filled(answers: nat -> Answer, start: nat, calls: nat, buffer: seq<Byte>) {
    && calls > 0 && |buffer| == SizeAt(answers, start, calls - 1)
    && var data := Fitting(answers(calls - 1).data, |buffer|);
       buffer[..|data|] == data
  }

  /** The outcome is determined by what the firmware says. */
  lemma OneOutcome(answers: nat -> Answer, grants: nat -> bool, first: nat, start: nat,
                   calls: nat, status: Status, size: nat, calls': nat, status': Status, size': nat)
    requires Met(answers, grants, first, calls) && Ended(answers, grants, first, start, calls, status, size)
    requires Met(answers, grants, first, calls') && Ended(answers, grants, first, start, calls', status', size')
    ensures calls == calls' && status == status' && size == size'
  {
    if calls < calls' {
      NotShorter(answers, grants, first, start, calls, status, size, calls');
    } else if calls' < calls {
      NotShorter(answers, grants, first, start, calls', status', size', calls);
    }
  }

  lemma NotShorter(answers: nat -> Answer, grants: nat -> bool, first: nat, start: nat,
                   calls: nat, status: Status, size: nat, calls': nat)
    requires Ended(answers, grants, first, start, calls, status, size)
    requires Met(answers, grants, first, calls')
    ensures calls' <= calls
  {
  }

  ghost predicate Unsatisfied(answers: nat -> Answer, calls: nat) {
    forall i :: 0 <= i < calls ==> answers(i).status == BufferTooSmall
  }

  /** Ready for call number `calls`, with a buffer of `size` bytes. */
  ghost predicate Ready(answers: nat -> Answer, grants: nat -> bool, first: nat, start: nat, calls: nat, size: nat) {
    && (forall i :: first <= i <= first + calls ==> grants(i))
    && Unsatisfied(answers, calls) && size == SizeAt(answers, start, calls)
  }

  /** Over, with what the buffer then holds. */
  ghost predicate Over(answers: nat -> Answer, grants: nat -> bool, first: nat, start: nat,
                       calls: nat, status: Status, size: nat, buffer: Option<seq<Byte>>) {
    && Met(answers, grants, first, calls) && Ended(answers, grants, first, start, calls, status, size)
    && (buffer.Some? <==> !status.IsError())
    && (buffer.Some? ==> Filled(answers, start, calls, buffer.value))
  }

  function Contents(b: array?<Byte>): Option<seq<Byte>>
    reads b
  {
    if b == null then None else Some(b[..])
  }

  /** The call that has been made asked for more space. */
  lemma AskedForMore(answers: nat -> Answer, grants: nat -> bool, first: nat, start: nat, calls: nat, size: nat)
    requires Ready(answers, grants, first, start, calls, size) && answers(calls).status == BufferTooSmall
    ensures var next := answers(calls).size;
            if grants(first + calls + 1) then Ready(answers, grants, first, start, calls + 1, next)
            else Over(answers, grants, first, start, calls + 1, OutOfResources, next, None)
  {
  }

  /** The call that has been made was the last, and left `written` in the buffer. */
  lemma WasLast(answers: nat -> Answer, grants: nat -> bool, first: nat, start: nat, calls: nat, written: seq<Byte>)
    requires Ready(answers, grants, first, start, calls, |written|)
    requires var a := answers(calls);
             && a.status != BufferTooSmall
             && (!a.status.IsError() ==> Fitting(a.data, |written|) <= written)
    ensures var a := answers(calls);
            Over(answers, grants, first, start, calls + 1, a.status, a.size,
                 if a.status.IsError() then None else Some(written))
  {
  }

  /** `while (GrowBuffer(...)) Status = call`, from a start size that is not zero and against a
      firmware that does not ask for more space forever. The status at the start is immaterial. */
  method Loop(pool: Pool, answers: nat -> Answer, start: nat, status0: Status)
    returns (status: Status, buffer: array?<Byte>, size: nat, ghost calls: nat)
    requires start > 0 && exists n: nat :: answers(n).status != BufferTooSmall
    modifies pool
    ensures pool.live == old(pool.live) + Held(buffer)
    ensures buffer != null <==> status.Success? || status.Warning?
    ensures buffer != null ==> fresh(buffer) && Filled(answers, start, calls, buffer[..])
    ensures Met(answers, pool.grants, old(pool.requests), calls)
    ensures Ended(answers, pool.grants, old(pool.requests), start, calls, status, size)
  {
    hide Ready, Met, Ended, Filled, Fitting;
    ghost var n: nat :| answers(n).status != BufferTooSmall;
    ghost var first := old(pool.requests);
    var again: bool;
    var next := 0;
    size, calls := start, 0;
    again, status, buffer := pool.GrowBuffer(status0, null, size);
    FirstRequest(answers, pool.grants, first, start);
    while again
      invariant next == calls && (again ==> pool.requests == first + calls + 1)
      invariant pool.live == old(pool.live) + Held(buffer) && (buffer != null ==> fresh(buffer))
      invariant again ==> buffer != null && buffer.Length == size
      invariant again ==> Ready(answers, pool.grants, first, start, calls, size)
      invariant !again ==> Over(answers, pool.grants, first, start, calls, status, size, Contents(buffer))
      decreases again, n - calls
    {
      NotPast(answers, pool.grants, first, start, calls, size, n);
      status, size := FirmwareCall(pool, answers(next), buffer, size);
      if status == BufferTooSmall {
        AskedForMore(answers, pool.grants, first, start, calls, buffer.Length);
      } else {
        WasLast(answers, pool.grants, first, start, calls, buffer[..]);
      }
      next, calls := next + 1, calls + 1;
      again, status, buffer := pool.GrowBuffer(status, buffer, size);
    }
  }

  lemma FirstRequest(answers: nat -> Answer, grants: nat -> bool, first: nat, start: nat)
    ensures if grants(first) then Ready(answers, grants, first, start, 0, start)
            else Over(answers, grants, first, start, 0, OutOfResources, start, None)
  {
  }

  lemma NotPast(answers: nat -> Answer, grants: nat -> bool, first: nat, start: nat, calls: nat, size: nat, n: nat)
    requires Ready(answers, grants, first, start, calls, size) && answers(n).status != BufferTooSmall
    ensures calls <= n
  {
  }

  // ----- The callers -----

  const SIZEOF_EFI_HANDLE: nat := 8
  const SIZEOF_EFI_MEMORY_DESCRIPTOR: nat := 40

  method LibLocateHandle(pool: Pool, answers: nat -> Answer)
    returns (status: Status, noHandles: nat, buffer: array?<Byte>, ghost calls: nat, ghost size: nat)
    requires exists n: nat :: answers(n).status != BufferTooSmall
    modifies pool
    ensures pool.live == old(pool.live) + Held(buffer)
    ensures buffer != null <==> status.Success? || status.Warning?
    ensures buffer != null ==> fresh(buffer) && Filled(answers, 400, calls, buffer[..])
    ensures Met(answers, pool.grants, old(pool.requests), calls)
    ensures Ended(answers, pool.grants, old(pool.requests), 400, calls, status, size)
    ensures if status.Success? || status.Warning? then noHandles * 8 <= answers(calls - 1).size < (noHandles + 1) * 8
            else noHandles == 0
  {
    var bufferSize;
    status, buffer, bufferSize, calls := Loop(pool, answers, 50 * SIZEOF_EFI_HANDLE, Success);
    size := bufferSize;
    noHandles := bufferSize / SIZEOF_EFI_HANDLE;
    if status.IsError() {
      noHandles := 0;
    }
  }

  /** The number of entries is only set when there is a map; `descriptorSize` is the firmware's. */
  method LibMemoryMap(pool: Pool, answers: nat -> Answer, descriptorSize: nat)
    returns (buffer: array?<Byte>, noEntries: Option<nat>, ghost calls: nat, ghost status: Status, ghost size: nat)
    requires descriptorSize > 0 && exists n: nat :: answers(n).status != BufferTooSmall
    modifies pool
    ensures pool.live == old(pool.live) + Held(buffer)
    ensures buffer != null <==> status.Success? || status.Warning?
    ensures buffer != null ==> fresh(buffer) && Filled(answers, 40, calls, buffer[..])
    ensures Met(answers, pool.grants, old(pool.requests), calls)
    ensures Ended(answers, pool.grants, old(pool.requests), 40, calls, status, size)
    ensures noEntries == if buffer == null then None else Some(answers(calls - 1).size / descriptorSize)
  {
    var st, bufferSize;
    st, buffer, bufferSize, calls := Loop(pool, answers, SIZEOF_EFI_MEMORY_DESCRIPTOR, Success);
    status, size := st, bufferSize;
    noEntries := None;
    if !st.IsError() {
      noEntries := Some(bufferSize / descriptorSize);
    }
  }

  /** The status is not initialized here. */
  method LibGetVariableAndSize(pool: Pool, answers: nat -> Answer, uninitialized: Status)
    returns (buffer: array?<Byte>, varSize: nat, ghost calls: nat, ghost status: Status, ghost size: nat)
    requires exists n: nat :: answers(n).status != BufferTooSmall
    modifies pool
    ensures pool.live == old(pool.live) + Held(buffer)
    ensures buffer != null <==> status.Success? || status.Warning?
    ensures buffer != null ==> fresh(buffer) && Filled(answers, 100, calls, buffer[..])
    ensures Met(answers, pool.grants, old(pool.requests), calls)
    ensures Ended(answers, pool.grants, old(pool.requests), 100, calls, status, size)
    ensures varSize == if buffer == null then 0 else answers(calls - 1).size
  {
    var st, bufferSize;
    st, buffer, bufferSize, calls := Loop(pool, answers, 100, uninitialized);
    status, size := st, bufferSize;
    if buffer != null {
      varSize := bufferSize;
    } else {
      varSize := 0;
    }
  }

  /** A firmware that holds the variable `v`. */
  function Holding(v: seq<Byte>, start: nat): nat -> Answer {
    (n: nat) => Answer(if n == 0 && |v| > start then BufferTooSmall else Success, |v|, v)
  }

  /** What a loop with two requests at its disposal gets from a firmware that holds a value: all
      of it, however long it is. */
  lemma WholeValue(v: seq<Byte>, grants: nat -> bool, first: nat, start: nat, calls: nat, status: Status, size: nat,
                   buffer: seq<Byte>)
    requires grants(first) && grants(first + 1)
    requires Met(Holding(v, start), grants, first, calls)
    requires Ended(Holding(v, start), grants, first, start, calls, status, size)
    requires !status.IsError() ==> Filled(Holding(v, start), start, calls, buffer)
    ensures status == Success && size == |v| && |v| <= |buffer| && buffer[..size] == v
    ensures calls == if |v| <= start then 1 else 2
  {
    var a := Holding(v, start);
    var second := a(1).status;
    assert calls <= 1 || a(0).status == BufferTooSmall;
    assert calls <= 2 || second == BufferTooSmall;
  }
}
