/** The descriptor table shared by the event-loop backends, the event mask, and the
    traces the backends produce (native calls and callback invocations). */
module EvCore {

  /** Event-mask bits. The header that declares them is not part of this model;
      the values follow the picoev convention the layer is built on. */
  const READ: nat := 1
  const WRITE: nat := 2
  const READWRITE: nat := 3
  const TIMEOUT: nat := 4
  const ADD: nat := 0x4000_0000
  const DEL: nat := 0x2000_0000

  /** `events & PAL_EV_READWRITE`: keeps exactly the read and write bits. */
  function RW(e: nat): (r: nat)
    ensures r <= READWRITE
    ensures HasRead(r) <==> HasRead(e)
    ensures HasWrite(r) <==> HasWrite(e)
    ensures r == (if HasRead(e) then READ else 0) + (if HasWrite(e) then WRITE else 0)
  {
    LowBits(e);
    e % 4
  }

  lemma LowBits(e: nat)
    ensures HasRead(e % 4) <==> HasRead(e)
    ensures HasWrite(e % 4) <==> HasWrite(e)
  {
    var q := e / 4;
    assert e == 2 * (2 * q) + e % 4;
    assert e / 2 == 2 * q + (e % 4) / 2;
  }

  predicate HasRead(e: nat) { e % 2 == 1 }
  predicate HasWrite(e: nat) { (e / 2) % 2 == 1 }
  predicate HasAdd(e: nat) { (e / ADD) % 2 == 1 }
  predicate HasDel(e: nat) { (e / DEL) % 2 == 1 }

  /** One slot of the descriptor table: the owning loop (0 when unowned), the recorded
      event mask, the callback and its argument (opaque identities here), and the
      backend-private word. */
  datatype FdEntry = FdEntry(loopId: nat, events: nat, callback: nat, cbArg: nat, backend: int)

  /** The table, indexed by descriptor; its length is the layer's `max_fd`. */
  type Registry = seq<FdEntry>

  /** One callback invocation `callback(loop, fd, revents, cb_arg)`. */
  datatype Invocation = Invocation(fd: nat, revents: nat, callback: nat, cbArg: nat)

  /** A trace element: a call into the kernel, or a callback invocation. */
  datatype Action<N> = Native(call: N) | Call(inv: Invocation)

  /** What callbacks do to the table. A callback may add, modify or release descriptors,
      so the table seen by a later event of the same pass can differ from the one at setup. */
  type Handler = (Registry, Invocation) -> Registry

  /** Callbacks cannot change the table's size (it is allocated once). */
  ghost predicate SizePreserving(h: Handler)
  {
    forall r: Registry, i: Invocation :: |h(r, i)| == |r|
  }

  /** A handler that never hands a descriptor to loop `lid`: whatever `lid` owns after a
      callback it already owned before. */
  ghost predicate NeverClaims(h: Handler, lid: nat)
  {
    forall r: Registry, i: Invocation, k: int ::
      0 <= k < |r| && k < |h(r, i)| && h(r, i)[k].loopId == lid ==> r[k].loopId == lid
  }

  /** A handler whose callbacks leave the table alone. */
  ghost predicate Inert(h: Handler)
  {
    forall r: Registry, i: Invocation :: h(r, i) == r
  }

  /** True when no element of the trace is a callback invocation. */
  predicate NoCalls<N>(t: seq<Action<N>>)
  {
    forall k :: 0 <= k < |t| ==> !t[k].Call?
  }
}
