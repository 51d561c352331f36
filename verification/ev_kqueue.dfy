/** The kqueue backend: descriptors whose interest changed are threaded into a pending
    list through their backend word, the list is turned into changelist records when the
    loop polls (or at once for a delete), and readiness events are dispatched to the
    callbacks of the descriptors the loop still owns. */
module KqueueBackend {
  import opened CArith
  import opened Errno
  import opened EvCore
  import opened EvDispatch

  /** Filter numbers of the BSD/macOS `<sys/event.h>`, which is not part of this model. */
  const EVFILT_READ: int := -1
  const EVFILT_WRITE: int := -2

  const CHANGELIST_SIZE: nat := 256
  const EVENTS_SIZE: nat := 1024

  /** `changed_fds` and `_backend` use -1 for "no descriptor". */
  const NIL: int := -1

  /** The first descriptor the 24-bit next-descriptor field of the 32-bit backend word
      cannot hold. */
  const MAX_LINKABLE_FDS: nat := 0x80_0000

  datatype KqOp = Disable | AddEnable

  /** One changelist record: the descriptor, the operation (EV_DISABLE or EV_ADD|EV_ENABLE),
      and the event mask whose filter it names. */
  datatype Change = Change(fd: nat, op: KqOp, mask: nat)

  /** A kevent call: a changelist-only flush, or the poll's wait that also submits the
      remaining changes. */
  datatype KqCall = Flush(changes: seq<Change>) | Wait(changes: seq<Change>, timeoutSec: int, maxEvents: nat)

  /** A reported event. `error` is the EV_ERROR flag. */
  datatype KEvent = KEvent(ident: nat, filter: int, error: bool)

  /** What the waiting kevent call returned: -1 with errno, or the reported events. */
  datatype WaitResult = WaitFailed(errno: nat) | WaitReady(events: seq<KEvent>)

  datatype KqLoop = KqLoop(loopId: nat, changedFds: int)

  // ---------------------------------------------------------------- backend word

  /** BACKEND_BUILD as written: next descriptor in the upper 24 bits, previous events in
      the low 8, stored through an unsigned cast into a 32-bit int. The two fields do not
      overlap, so the C `|` is a sum; a descriptor of 2^23 or more overflows the shift. */
  function BackendBuildAsWritten(next: int, events: nat): int
  {
    Wrap32(next * 256 + events % 256)
  }

  /** BACKEND_BUILD with a word wide enough for every descriptor: the next descriptor
      above the low 8 bits of previous events. The rest of the model links with this. */
  function BackendBuild(next: int, events: nat): int
  {
    next * 256 + events % 256
  }

  /** BACKEND_GET_NEXT_FD: an arithmetic right shift by 8, that is, floor division. */
  function NextFd(w: int): int
  {
    w / 256
  }

  /** BACKEND_GET_OLD_EVENTS: the low 8 bits of the two's-complement word. */
  function OldEvents(w: int): nat
  {
    w % 256
  }

  /** The packed word gives back both fields, for every descriptor and for the
      end-of-list marker. */
  lemma PackRoundTrip(next: int, events: nat)
    requires NIL <= next
    requires events < 256
    ensures NextFd(BackendBuild(next, events)) == next
    ensures OldEvents(BackendBuild(next, events)) == events
  {
  }

  /** A linked word is never the "not linked" marker, since the saved events stay below 255. */
  lemma BuildIsNotNil(next: int, events: nat)
    requires NIL <= next
    requires events < 255
    ensures BackendBuild(next, events) != NIL
  {
    PackRoundTrip(next, events);
  }

  /** As written, the 32-bit word gives back the next descriptor exactly when it is below
      2^23; it then equals the wide word. */
  lemma PackRoundTripAsWritten(next: int, events: nat)
    requires NIL <= next
    requires events < 256
    ensures NextFd(BackendBuildAsWritten(next, events)) == next <==> next < MAX_LINKABLE_FDS
    ensures next < MAX_LINKABLE_FDS ==> BackendBuildAsWritten(next, events) == BackendBuild(next, events)
    ensures OldEvents(BackendBuildAsWritten(next, events)) == events
  {
    var x := next * 256 + events;
    assert events % 256 == events;
    var w := Wrap32(x);
    assert BackendBuildAsWritten(next, events) == w;
    if next < MAX_LINKABLE_FDS {
      assert -0x8000_0000 <= x < 0x8000_0000;
    } else {
      ShiftBound(w);
    }
    WrapKeepsLowByte(x);
  }

  lemma ShiftBound(w: int)
    requires w < 0x8000_0000
    ensures NextFd(w) < MAX_LINKABLE_FDS
  {
  }

  /** The 32-bit wrap subtracts a multiple of 2^32, which leaves the low byte alone. */
  lemma WrapKeepsLowByte(x: int)
    ensures Wrap32(x) % 256 == x % 256
  {
    var q := x / TWO_POW_32;
    var m := if x % TWO_POW_32 >= 0x8000_0000 then q + 1 else q;
    assert Wrap32(x) == x - m * TWO_POW_32;
    LowByteShift(x, m * 0x100_0000);
  }

  lemma LowByteShift(x: int, k: int)
    ensures (x - k * 256) % 256 == x % 256
  {
  }

  /** As written, linking a descriptor behind list head 2^23 stores a next descriptor of
      -2^23, and behind head 2^24 - 1 stores -1, which ends the pending list early so
      that the changes of that head are never submitted. */
  lemma LargeHeadCorruptsList()
    ensures NextFd(BackendBuildAsWritten(0x80_0000, 0)) == -0x80_0000
    ensures NextFd(BackendBuildAsWritten(0xFF_FFFF, 0)) == NIL
    ensures NextFd(BackendBuild(0x80_0000, 0)) == 0x80_0000
    ensures NextFd(BackendBuild(0xFF_FFFF, 0)) == 0xFF_FFFF
  {
    assert BackendBuildAsWritten(0x80_0000, 0) == -0x8000_0000;
    assert BackendBuildAsWritten(0xFF_FFFF, 0) == -256;
  }

  // ---------------------------------------------------------------- filter encoding

  /** The filter the SET macro computes for an event mask, as written: the two filter
      numbers combined with a bitwise OR. */
  function FilterAsWritten(mask: nat): (f: int)
    ensures -0x8000_0000 <= f < 0x8000_0000
  {
    Or32(if HasRead(mask) then EVFILT_READ else 0, if HasWrite(mask) then EVFILT_WRITE else 0)
  }

  /** Because the filter numbers are negative, OR-ing them yields EVFILT_READ again: a
      record for a read-and-write mask names only the read filter. */
  lemma ReadWriteFilterCollapses()
    ensures FilterAsWritten(READ) == EVFILT_READ
    ensures FilterAsWritten(WRITE) == EVFILT_WRITE
    ensures FilterAsWritten(READWRITE) == EVFILT_READ
    ensures FilterAsWritten(READWRITE) != EVFILT_WRITE
  {
    FilterOfRead();
    FilterOfWrite();
    FilterOfReadWrite();
  }

  lemma FilterOfRead()
    ensures FilterAsWritten(READ) == EVFILT_READ
  {
    assert HasRead(READ) && !HasWrite(READ);
    Or32AllOnes(0);
  }

  lemma FilterOfWrite()
    ensures FilterAsWritten(WRITE) == EVFILT_WRITE
  {
    assert !HasRead(WRITE) && HasWrite(WRITE);
    Or32Zero(EVFILT_WRITE);
  }

  lemma FilterOfReadWrite()
    ensures FilterAsWritten(READWRITE) == EVFILT_READ
  {
    assert HasRead(READWRITE) && HasWrite(READWRITE);
    Or32AllOnes(EVFILT_WRITE);
  }

  /** The kevent records a change evidently means to register: one per filter named by the
      mask. */
  function FiltersCorrected(mask: nat): (fs: seq<int>)
    ensures EVFILT_READ in fs <==> HasRead(mask)
    ensures EVFILT_WRITE in fs <==> HasWrite(mask)
    ensures forall f :: f in fs ==> f == EVFILT_READ || f == EVFILT_WRITE
    ensures |fs| <= 2
  {
    (if HasRead(mask) then [EVFILT_READ] else []) + (if HasWrite(mask) then [EVFILT_WRITE] else [])
  }

  /** The dispatch test `(filter & (EVFILT_READ | EVFILT_WRITE)) != 0`. */
  predicate FilterTest(filter: int)
    requires -0x8000_0000 <= filter < 0x8000_0000
  {
    And32(filter, Or32(EVFILT_READ, EVFILT_WRITE)) != 0
  }

  /** The mask in the dispatch test has every bit set, so the test accepts every non-zero
      filter; other filters are stopped only by the `assert(0)` of the switch. */
  lemma FilterTestAcceptsNonZero(filter: int)
    requires -0x8000_0000 <= filter < 0x8000_0000
    ensures FilterTest(filter) <==> filter != 0
  {
    ReadWriteMaskIsAllOnes();
    And32AllOnes(filter);
  }

  lemma ReadWriteMaskIsAllOnes()
    ensures Or32(EVFILT_READ, EVFILT_WRITE) == -1
  {
    Or32AllOnes(EVFILT_WRITE);
  }

  // ---------------------------------------------------------------- pending list

  /** `pending` is the list threaded from `head` through the backend words: in range,
      without repetition, each linked word pointing at the next element, ending in -1. */
  ghost predicate Chain(reg: Registry, head: int, pending: seq<nat>)
  {
    (forall k :: 0 <= k < |pending| ==> pending[k] < |reg|)
    && (forall a, b :: 0 <= a < b < |pending| ==> pending[a] != pending[b])
    && head == (if |pending| == 0 then NIL else pending[0] as int)
    && (forall k :: 0 <= k < |pending| ==>
          reg[pending[k]].backend != NIL
          && NextFd(reg[pending[k]].backend) == (if k + 1 < |pending| then pending[k + 1] as int else NIL))
  }

  /** The changelist records one dirty descriptor contributes: disable what the kernel had,
      then add and enable what the table now records. */
  function EntryChanges(fd: nat, e: FdEntry): seq<Change>
  {
    var prev := OldEvents(e.backend);
    if e.events != prev then
      (if prev != 0 then [Change(fd, Disable, prev)] else [])
      + (if e.events != 0 then [Change(fd, AddEnable, e.events)] else [])
    else []
  }

  /** The records of a whole pending list, in list order. */
  function PendingChanges(reg: Registry, pending: seq<nat>): seq<Change>
    requires forall k :: 0 <= k < |pending| ==> pending[k] < |reg|
  {
    if |pending| == 0 then []
    else
      var last := pending[|pending| - 1];
      PendingChanges(reg, pending[..|pending| - 1]) + EntryChanges(last, reg[last])
  }

  function Flatten(batches: seq<seq<Change>>): seq<Change>
  {
    if |batches| == 0 then [] else Flatten(batches[..|batches| - 1]) + batches[|batches| - 1]
  }

  /** The table with the backend word of every listed descriptor reset to -1. */
  ghost function Unlink(reg: Registry, p: seq<nat>): (r: Registry)
    requires forall k :: 0 <= k < |p| ==> p[k] < |reg|
    ensures |r| == |reg|
  {
    if |p| == 0 then reg
    else
      var r := Unlink(reg, p[..|p| - 1]);
      var last := p[|p| - 1];
      r[last := r[last].(backend := NIL)]
  }

  lemma {:induction false} UnlinkSpec(reg: Registry, p: seq<nat>)
    requires forall k :: 0 <= k < |p| ==> p[k] < |reg|
    ensures forall i :: 0 <= i < |reg| ==>
              Unlink(reg, p)[i] == (if i in p then reg[i].(backend := NIL) else reg[i])
  {
    if |p| > 0 {
      var init := p[..|p| - 1];
      UnlinkSpec(reg, init);
      assert forall i :: i in p <==> i in init || i == p[|p| - 1];
    }
  }

  /** Writes one descriptor's records into the changelist (each at a slot inside the
      256-entry array) and flushes it when at most one slot is left. */
  method Stage(flushes: seq<seq<Change>>, buf: seq<Change>, recs: seq<Change>)
    returns (flushes': seq<seq<Change>>, buf': seq<Change>)
    requires |buf| < CHANGELIST_SIZE - 1
    requires |recs| <= 2
    requires forall m :: 0 <= m < |flushes| ==> 0 < |flushes[m]| <= CHANGELIST_SIZE
    ensures Flatten(flushes') + buf' == Flatten(flushes) + buf + recs
    ensures forall m :: 0 <= m < |flushes'| ==> 0 < |flushes'[m]| <= CHANGELIST_SIZE
    ensures |buf'| < CHANGELIST_SIZE - 1
  {
    buf' := buf;
    var i := 0;
    while i < |recs|
      invariant 0 <= i <= |recs|
      invariant buf' == buf + recs[..i]
    {
      assert |buf'| < CHANGELIST_SIZE;  // the slot written is inside the changelist
      buf' := buf' + [recs[i]];
      assert recs[..i + 1] == recs[..i] + [recs[i]];
      i := i + 1;
    }
    assert recs[..i] == recs;
    flushes' := flushes;
    if |buf'| + 1 >= CHANGELIST_SIZE {
      assert (flushes + [buf'])[..|flushes|] == flushes;
      flushes' := flushes + [buf'];
      buf' := [];
    }
  }

  /** What visiting the `k`-th listed descriptor does to the walk's state: its entry is
      still the original one, unlinking it extends the unlinked prefix, its records extend
      the records of the prefix, and its word names the next element. */
  lemma WalkStep(reg: Registry, head: int, pending: seq<nat>, k: nat)
    requires Chain(reg, head, pending)
    requires k < |pending|
    ensures pending[k] < |reg|
    ensures Unlink(reg, pending[..k])[pending[k]] == reg[pending[k]]
    ensures Unlink(reg, pending[..k + 1]) == Unlink(reg, pending[..k])[pending[k] := reg[pending[k]].(backend := NIL)]
    ensures PendingChanges(reg, pending[..k + 1]) == PendingChanges(reg, pending[..k]) + EntryChanges(pending[k], reg[pending[k]])
    ensures NextFd(reg[pending[k]].backend) == (if k + 1 < |pending| then pending[k + 1] as int else NIL)
  {
    ChainLink(reg, head, pending, k);
    assert pending[k] !in pending[..k] by {
      forall a | 0 <= a < k
        ensures pending[..k][a] != pending[k]
      {
        assert pending[..k][a] == pending[a];
      }
    }
    UnlinkStep(reg, pending, k);
    ChangesStep(reg, pending, k);
  }

  lemma UnlinkStep(reg: Registry, p: seq<nat>, k: nat)
    requires forall j :: 0 <= j < |p| ==> p[j] < |reg|
    requires k < |p| && p[k] !in p[..k]
    ensures Unlink(reg, p[..k])[p[k]] == reg[p[k]]
    ensures Unlink(reg, p[..k + 1]) == Unlink(reg, p[..k])[p[k] := reg[p[k]].(backend := NIL)]
  {
    UnlinkSpec(reg, p[..k]);
    assert p[..k + 1][..k] == p[..k];
  }

  lemma ChangesStep(reg: Registry, p: seq<nat>, k: nat)
    requires forall j :: 0 <= j < |p| ==> p[j] < |reg|
    requires k < |p|
    ensures PendingChanges(reg, p[..k + 1]) == PendingChanges(reg, p[..k]) + EntryChanges(p[k], reg[p[k]])
  {
    assert p[..k + 1][..k] == p[..k];
  }

  /** The state of the walk after the first `k` listed descriptors: those are unlinked and
      their records are flushed or waiting in the changelist. */
  ghost predicate Walked(reg: Registry, pending: seq<nat>, k: nat, reg': Registry,
                         flushes: seq<seq<Change>>, buf: seq<Change>)
    requires k <= |pending|
    requires forall j :: 0 <= j < |pending| ==> pending[j] < |reg|
  {
    && reg' == Unlink(reg, pending[..k])
    && Flatten(flushes) + buf == PendingChanges(reg, pending[..k])
    && (forall m :: 0 <= m < |flushes| ==> 0 < |flushes[m]| <= CHANGELIST_SIZE)
    && |buf| < CHANGELIST_SIZE - 1
  }

  /** One iteration of the walk: stage the records of the `k`-th listed descriptor if its
      events changed, unlink it, and move to the next element. */
  method Visit(reg: Registry, head: int, ghost pending: seq<nat>, ghost k: nat, cur: nat,
               reg': Registry, flushes: seq<seq<Change>>, buf: seq<Change>)
    returns (reg'': Registry, flushes': seq<seq<Change>>, buf': seq<Change>, next: int)
    requires Chain(reg, head, pending)
    requires k < |pending| && cur == pending[k]
    requires Walked(reg, pending, k, reg', flushes, buf)
    ensures Walked(reg, pending, k + 1, reg'', flushes', buf')
    ensures next == (if k + 1 < |pending| then pending[k + 1] as int else NIL)
  {
    WalkStep(reg, head, pending, k);
    var changed := reg'[cur];
    flushes', buf' := flushes, buf;
    if changed.events != OldEvents(changed.backend) {
      flushes', buf' := Stage(flushes, buf, EntryChanges(cur, changed));
    }
    reg'' := reg'[cur := changed.(backend := NIL)];
    next := NextFd(changed.backend);
  }

  /** apply_pending_changes: walks the pending list, writes the records of each dirty
      descriptor into the 256-slot changelist, flushes it with a changelist-only kevent
      whenever at most one slot is left, unlinks every visited descriptor, and (with
      `applyAll`) flushes the remainder. Returns the records left in the changelist. */
  method ApplyPendingChanges(reg: Registry, head: int, applyAll: bool, ghost pending: seq<nat>)
    returns (reg': Registry, head': int, flushes: seq<seq<Change>>, tail: seq<Change>)
    requires Chain(reg, head, pending)
    ensures head' == NIL
    ensures |reg'| == |reg|
    ensures reg' == Unlink(reg, pending)
    ensures forall i :: 0 <= i < |reg| ==>
              reg'[i] == (if i in pending then reg[i].(backend := NIL) else reg[i])
    ensures Flatten(flushes) + tail == PendingChanges(reg, pending)
    ensures forall k :: 0 <= k < |flushes| ==> 0 < |flushes[k]| <= CHANGELIST_SIZE
    ensures |tail| < CHANGELIST_SIZE - 1
    ensures applyAll ==> tail == []
  {
    reg' := reg;
    var cur := head;
    var buf: seq<Change> := [];
    flushes := [];
    ghost var k := 0;
    while cur != NIL
      invariant 0 <= k <= |pending|
      invariant cur == (if k < |pending| then pending[k] as int else NIL)
      invariant Walked(reg, pending, k, reg', flushes, buf)
      decreases |pending| - k
    {
      reg', flushes, buf, cur := Visit(reg, head, pending, k, cur, reg', flushes, buf);
      k := k + 1;
    }
    assert pending[..k] == pending;
    UnlinkSpec(reg, pending);
    if applyAll && |buf| != 0 {
      assert (flushes + [buf])[..|flushes|] == flushes;
      flushes := flushes + [buf];
      buf := [];
    }
    head' := cur;
    tail := buf;
  }

  // ---------------------------------------------------------------- kernel view

  /** The kernel's enabled filters per descriptor, as an event mask (absent means none). */
  type KernelView = map<nat, nat>

  function Enabled(kv: KernelView, fd: nat): nat
  {
    if fd in kv then kv[fd] else 0
  }

  /** Mask `a` with the bits of `b` cleared (both at most READWRITE). */
  function Without(a: nat, b: nat): (r: nat)
    ensures r <= READWRITE
  {
    (if HasRead(a) && !HasRead(b) then READ else 0) + (if HasWrite(a) && !HasWrite(b) then WRITE else 0)
  }

  /** Mask `a` with the bits of `b` set. */
  function With(a: nat, b: nat): (r: nat)
    ensures r <= READWRITE
  {
    (if HasRead(a) || HasRead(b) then READ else 0) + (if HasWrite(a) || HasWrite(b) then WRITE else 0)
  }

  /** What one record does to the kernel under the corrected encoding, where a record
      reaches every filter its mask names (FiltersCorrected): EV_DISABLE turns them off,
      EV_ADD|EV_ENABLE turns them on. KernelStepAsWritten is the encoding as written. */
  function KernelStep(kv: KernelView, c: Change): KernelView
  {
    match c.op
    case Disable => kv[c.fd := Without(Enabled(kv, c.fd), c.mask)]
    case AddEnable => kv[c.fd := With(Enabled(kv, c.fd), c.mask)]
  }

  function KernelRun(kv: KernelView, cs: seq<Change>): KernelView
    decreases |cs|
  {
    if |cs| == 0 then kv else KernelRun(KernelStep(kv, cs[0]), cs[1..])
  }

  lemma KernelRunAppend(kv: KernelView, a: seq<Change>, b: seq<Change>)
    ensures KernelRun(kv, a + b) == KernelRun(KernelRun(kv, a), b)
    decreases |a|
  {
    if |a| == 0 {
      assert a + b == b;
    } else {
      assert (a + b)[0] == a[0];
      assert (a + b)[1..] == a[1..] + b;
      KernelRunAppend(KernelStep(kv, a[0]), a[1..], b);
    }
  }

  /** Under the corrected encoding, the records of one dirty descriptor take the kernel
      from its saved events to the events now recorded, and touch nothing else. */
  lemma {:induction false} EntryChangesSync(kv: KernelView, fd: nat, e: FdEntry)
    requires Enabled(kv, fd) == OldEvents(e.backend)
    requires OldEvents(e.backend) <= READWRITE && e.events <= READWRITE
    ensures Enabled(KernelRun(kv, EntryChanges(fd, e)), fd) == e.events
    ensures forall i :: i != fd ==> Enabled(KernelRun(kv, EntryChanges(fd, e)), i) == Enabled(kv, i)
  {
    var prev := OldEvents(e.backend);
    if e.events != prev {
      var d: seq<Change> := if prev != 0 then [Change(fd, Disable, prev)] else [];
      var a: seq<Change> := if e.events != 0 then [Change(fd, AddEnable, e.events)] else [];
      KernelRunAppend(kv, d, a);
      var mid := KernelRun(kv, d);
      assert Enabled(mid, fd) == 0 by {
        if prev != 0 {
          assert KernelRun(kv, d) == KernelRun(KernelStep(kv, d[0]), []);
        }
      }
      if e.events != 0 {
        assert KernelRun(mid, a) == KernelRun(KernelStep(mid, a[0]), []);
      }
      if prev != 0 {
        assert KernelRun(kv, d) == KernelRun(KernelStep(kv, d[0]), []);
      }
    }
  }

  /** Under the corrected encoding, submitting the records of a pending list brings the
      kernel in line with the table: every listed descriptor ends with the events the table
      records for it, provided the kernel held the events saved in its backend word, and no
      other descriptor changes. */
  lemma {:induction false} FlushSynchronisesKernel(kv: KernelView, reg: Registry, pending: seq<nat>)
    requires forall k :: 0 <= k < |pending| ==> pending[k] < |reg|
    requires forall a, b :: 0 <= a < b < |pending| ==> pending[a] != pending[b]
    requires forall k :: 0 <= k < |pending| ==>
               Enabled(kv, pending[k]) == OldEvents(reg[pending[k]].backend)
               && OldEvents(reg[pending[k]].backend) <= READWRITE && reg[pending[k]].events <= READWRITE
    ensures forall i :: i in pending ==> Enabled(KernelRun(kv, PendingChanges(reg, pending)), i) == reg[i].events
    ensures forall i :: i !in pending ==> Enabled(KernelRun(kv, PendingChanges(reg, pending)), i) == Enabled(kv, i)
    decreases |pending|
  {
    if |pending| > 0 {
      var init := pending[..|pending| - 1];
      var last := pending[|pending| - 1];
      assert forall i :: i in pending <==> i in init || i == last;
      assert last !in init;
      FlushSynchronisesKernel(kv, reg, init);
      var mid := KernelRun(kv, PendingChanges(reg, init));
      KernelRunAppend(kv, PendingChanges(reg, init), EntryChanges(last, reg[last]));
      EntryChangesSync(mid, last, reg[last]);
    }
  }

  /** What a record does to the kernel as written: it names the single filter the SET
      macro computes, so it reaches READ or WRITE, never both. */
  function KernelStepAsWritten(kv: KernelView, c: Change): (kv': KernelView)
  {
    KernelStep(kv, c.(mask := NamedAsWritten(c.mask)))
  }

  /** The filter bit the SET macro's record reaches for a mask. */
  function NamedAsWritten(mask: nat): nat
  {
    var f := FilterAsWritten(mask);
    if f == EVFILT_READ then READ else if f == EVFILT_WRITE then WRITE else 0
  }

  /** READ and WRITE reach their own filter; READWRITE reaches only the read filter. */
  lemma NamedAsWrittenValues()
    ensures NamedAsWritten(READ) == READ
    ensures NamedAsWritten(WRITE) == WRITE
    ensures NamedAsWritten(READWRITE) == READ
  {
    ReadWriteFilterCollapses();
  }

  function KernelRunAsWritten(kv: KernelView, cs: seq<Change>): KernelView
    decreases |cs|
  {
    if |cs| == 0 then kv else KernelRunAsWritten(KernelStepAsWritten(kv, cs[0]), cs[1..])
  }

  /** A record for READ or for WRITE alone names its filter correctly as written. */
  lemma SingleFilterStepAgrees(kv: KernelView, c: Change)
    requires c.mask == READ || c.mask == WRITE
    ensures KernelStepAsWritten(kv, c) == KernelStep(kv, c)
  {
    NamedAsWrittenValues();
    assert c.(mask := NamedAsWritten(c.mask)) == c;
  }

  /** Without read-and-write records, the records as written act as intended. */
  lemma {:induction false} SingleFilterRunAgrees(kv: KernelView, cs: seq<Change>)
    requires forall k :: 0 <= k < |cs| ==> SingleFilterRecord(cs[k])
    ensures KernelRunAsWritten(kv, cs) == KernelRun(kv, cs)
    decreases |cs|
  {
    if |cs| > 0 {
      SingleFilterStepAgrees(kv, cs[0]);
      SingleFilterRunAgrees(KernelStep(kv, cs[0]), cs[1..]);
    }
  }

  /** The records of a pending list carry the old or the new mask of a listed descriptor,
      never 0. */
  lemma {:induction false} PendingChangesMasks(reg: Registry, pending: seq<nat>)
    requires forall k :: 0 <= k < |pending| ==> pending[k] < |reg|
    requires forall k :: 0 <= k < |pending| ==>
               SingleFilter(OldEvents(reg[pending[k]].backend)) && SingleFilter(reg[pending[k]].events)
    ensures forall k :: 0 <= k < |PendingChanges(reg, pending)| ==> SingleFilterRecord(PendingChanges(reg, pending)[k])
    decreases |pending|
  {
    if |pending| > 0 {
      PendingChangesMasks(reg, pending[..|pending| - 1]);
      var last := pending[|pending| - 1];
      var a: seq<Change> := PendingChanges(reg, pending[..|pending| - 1]);
      var b: seq<Change> := EntryChanges(last, reg[last]);
      assert PendingChanges(reg, pending) == a + b;
      EntryChangesMasks(last, reg[last]);
      forall k | 0 <= k < |a + b|
        ensures SingleFilterRecord((a + b)[k])
      {
        if k >= |a| {
          assert (a + b)[k] == b[k - |a|];
        } else {
          assert (a + b)[k] == a[k];
        }
      }
    }
  }

  predicate SingleFilterRecord(c: Change)
  {
    c.mask == READ || c.mask == WRITE
  }

  lemma EntryChangesMasks(fd: nat, e: FdEntry)
    requires SingleFilter(OldEvents(e.backend)) && SingleFilter(e.events)
    ensures forall k :: 0 <= k < |EntryChanges(fd, e)| ==> SingleFilterRecord(EntryChanges(fd, e)[k])
  {
  }

  /** A mask the SET macro encodes correctly: none, READ or WRITE. */
  predicate SingleFilter(m: nat)
  {
    m == 0 || m == READ || m == WRITE
  }

  /** As written, the flush still synchronises the kernel when no listed descriptor had
      or now records both READ and WRITE. */
  lemma FlushSynchronisesKernelAsWritten(kv: KernelView, reg: Registry, pending: seq<nat>)
    requires forall k :: 0 <= k < |pending| ==> pending[k] < |reg|
    requires forall a, b :: 0 <= a < b < |pending| ==> pending[a] != pending[b]
    requires forall k :: 0 <= k < |pending| ==>
               Enabled(kv, pending[k]) == OldEvents(reg[pending[k]].backend)
               && SingleFilter(OldEvents(reg[pending[k]].backend)) && SingleFilter(reg[pending[k]].events)
    ensures forall i :: i in pending ==>
              Enabled(KernelRunAsWritten(kv, PendingChanges(reg, pending)), i) == reg[i].events
    ensures forall i :: i !in pending ==>
              Enabled(KernelRunAsWritten(kv, PendingChanges(reg, pending)), i) == Enabled(kv, i)
  {
    FlushSynchronisesKernel(kv, reg, pending);
    PendingChangesMasks(reg, pending);
    SingleFilterRunAgrees(kv, PendingChanges(reg, pending));
  }

  /** As written, enabling a descriptor for READWRITE turns on only its read filter. */
  lemma ReadWriteAddLeavesWriteOff(fd: nat, e: FdEntry)
    requires OldEvents(e.backend) == 0 && e.events == READWRITE
    ensures EntryChanges(fd, e) == [Change(fd, AddEnable, READWRITE)]
    ensures Enabled(KernelRunAsWritten(map[], EntryChanges(fd, e)), fd) == READ
    ensures Enabled(KernelRun(map[], EntryChanges(fd, e)), fd) == READWRITE
  {
    var c := Change(fd, AddEnable, READWRITE);
    assert EntryChanges(fd, e) == [c];
    KernelRunOne(map[], c);
    NamedAsWrittenValues();
    MaskValues();
  }

  /** A run of one record is that record's step. */
  lemma KernelRunOne(kv: KernelView, c: Change)
    ensures KernelRun(kv, [c]) == KernelStep(kv, c)
    ensures KernelRunAsWritten(kv, [c]) == KernelStepAsWritten(kv, c)
  {
    assert [c][1..] == [];
  }

  /** As written, disabling a descriptor that had READWRITE leaves its write filter on. */
  lemma ReadWriteDisableLeavesWriteOn(fd: nat, e: FdEntry)
    requires OldEvents(e.backend) == READWRITE && e.events == 0
    ensures EntryChanges(fd, e) == [Change(fd, Disable, READWRITE)]
    ensures Enabled(KernelRunAsWritten(map[fd := READWRITE], EntryChanges(fd, e)), fd) == WRITE
    ensures Enabled(KernelRun(map[fd := READWRITE], EntryChanges(fd, e)), fd) == 0
  {
    var c := Change(fd, Disable, READWRITE);
    assert EntryChanges(fd, e) == [c];
    KernelRunOne(map[fd := READWRITE], c);
    NamedAsWrittenValues();
    MaskValues();
  }

  lemma MaskValues()
    ensures With(0, READ) == READ && With(0, READWRITE) == READWRITE
    ensures Without(READWRITE, READ) == WRITE && Without(READWRITE, READWRITE) == 0
  {
  }

  // ---------------------------------------------------------------- update

  datatype Linked = Linked(reg: Registry, head: int, changed: bool)

  /** The first half of pal_ev_update_events_internal: reset the word on ADD, return when
      nothing changes, otherwise link the descriptor (saving the events the kernel has)
      unless it is already linked, and record the new read/write mask. */
  function Link(reg: Registry, head: int, fd: nat, events: nat): (r: Linked)
    requires fd < |reg|
    ensures |r.reg| == |reg|
    ensures forall i :: 0 <= i < |reg| && i != fd ==> r.reg[i] == reg[i]
  {
    var target := reg[fd];
    var b0 := if HasAdd(events) then NIL else target.backend;
    var nothing := if events == DEL then b0 == NIL else RW(events) == target.events;
    if nothing then Linked(reg[fd := target.(backend := b0)], head, false)
    else
      var word := if b0 == NIL then BackendBuild(head, target.events) else b0;
      var head' := if b0 == NIL then fd as int else head;
      Linked(reg[fd := target.(backend := word, events := RW(events))], head', true)
  }

  /** After linking, the descriptor's word names the previous list head and the events
      the kernel still has for it; a descriptor already on the list keeps its word. */
  lemma LinkSpec(reg: Registry, head: int, fd: nat, events: nat)
    requires fd < |reg|
    requires NIL <= head
    requires reg[fd].events < 255
    ensures var r := Link(reg, head, fd, events);
            var b0 := if HasAdd(events) then NIL else reg[fd].backend;
            && (!r.changed ==> r.head == head && r.reg[fd] == reg[fd].(backend := b0))
            && (r.changed ==> r.reg[fd].events == RW(events) && r.reg[fd].backend != NIL)
            && (r.changed && b0 == NIL ==>
                  r.head == fd && NextFd(r.reg[fd].backend) == head
                  && OldEvents(r.reg[fd].backend) == reg[fd].events)
            && (r.changed && b0 != NIL ==> r.head == head && r.reg[fd].backend == b0)
            && r.reg[fd].loopId == reg[fd].loopId
            && r.reg[fd].callback == reg[fd].callback && r.reg[fd].cbArg == reg[fd].cbArg
  {
    PackRoundTrip(head, reg[fd].events);
    BuildIsNotNil(head, reg[fd].events);
  }

  /** Update returns without touching the kernel or the list exactly when the request
      changes nothing: a delete of an unlinked descriptor, or a mask equal to the
      recorded one. */
  lemma LinkChangesExactly(reg: Registry, head: int, fd: nat, events: nat)
    requires fd < |reg|
    requires NIL <= head
    requires reg[fd].events < 255
    ensures var b0 := if HasAdd(events) then NIL else reg[fd].backend;
            Link(reg, head, fd, events).changed <==>
              (if events == DEL then b0 != NIL else RW(events) != reg[fd].events)
  {
  }

  /** Linking keeps the pending list well formed, and a descriptor is put on it only when
      it is not already there, so it appears at most once. */
  lemma LinkPreservesChain(reg: Registry, head: int, fd: nat, events: nat, pending: seq<nat>)
    requires fd < |reg|
    requires reg[fd].events < 255
    requires Chain(reg, head, pending)
    requires HasAdd(events) ==> fd !in pending
    requires !HasAdd(events) && fd !in pending ==> reg[fd].backend == NIL
    ensures NIL <= head
    ensures var r := Link(reg, head, fd, events);
            var p' := if r.changed && fd !in pending then [fd] + pending else pending;
            Chain(r.reg, r.head, p') && (r.changed ==> fd in p')
  {
    assert NIL <= head by {
      if |pending| > 0 {
        assert pending[0] < |reg|;
      }
    }
    LinkSpec(reg, head, fd, events);
    var r := Link(reg, head, fd, events);
    if fd in pending {
      var m :| 0 <= m < |pending| && pending[m] == fd;
      assert reg[fd].backend != NIL;
      ChainKeptWhenWordKept(reg, r.reg, head, pending, fd);
    } else if r.changed {
      ChainPushFront(reg, r.reg, head, pending, fd);
    } else {
      ChainKeptWhenOffList(reg, r.reg, head, pending, fd);
    }
  }

  /** Changing an entry that is not on the list keeps the list. */
  lemma ChainKeptWhenOffList(reg: Registry, reg': Registry, head: int, pending: seq<nat>, fd: nat)
    requires Chain(reg, head, pending)
    requires fd !in pending
    requires |reg'| == |reg|
    requires forall i :: 0 <= i < |reg| && i != fd ==> reg'[i] == reg[i]
    ensures Chain(reg', head, pending)
  {
    forall k | 0 <= k < |pending|
      ensures reg'[pending[k]] == reg[pending[k]]
    {
      assert pending[k] != fd;
    }
  }

  /** Changing a listed entry without touching its word keeps the list. */
  lemma ChainKeptWhenWordKept(reg: Registry, reg': Registry, head: int, pending: seq<nat>, fd: nat)
    requires Chain(reg, head, pending)
    requires fd < |reg| == |reg'|
    requires forall i :: 0 <= i < |reg| && i != fd ==> reg'[i] == reg[i]
    requires reg'[fd].backend == reg[fd].backend
    ensures Chain(reg', head, pending)
  {
    forall k | 0 <= k < |pending|
      ensures reg'[pending[k]].backend == reg[pending[k]].backend
    {
    }
  }

  /** The link stored in the word of the `k`-th listed descriptor. */
  lemma ChainLink(reg: Registry, head: int, pending: seq<nat>, k: nat)
    requires Chain(reg, head, pending)
    requires k < |pending|
    ensures pending[k] < |reg| && reg[pending[k]].backend != NIL
    ensures NextFd(reg[pending[k]].backend) == (if k + 1 < |pending| then pending[k + 1] as int else NIL)
  {
  }

  /** Linking an unlisted descriptor in front of the list. */
  lemma ChainPushFront(reg: Registry, reg': Registry, head: int, pending: seq<nat>, fd: nat)
    requires Chain(reg, head, pending)
    requires fd !in pending
    requires fd < |reg| == |reg'|
    requires forall i :: 0 <= i < |reg| && i != fd ==> reg'[i] == reg[i]
    requires reg'[fd].backend != NIL && NextFd(reg'[fd].backend) == head
    ensures Chain(reg', fd, [fd] + pending)
  {
    var p' := [fd] + pending;
    forall k | 0 <= k < |p'|
      ensures p'[k] < |reg'| && reg'[p'[k]].backend != NIL
      ensures NextFd(reg'[p'[k]].backend) == (if k + 1 < |p'| then p'[k + 1] as int else NIL)
    {
      if k > 0 {
        var q := pending[k - 1];
        ChainLink(reg, head, pending, k - 1);
        assert p'[k] == q && q != fd && q < |reg|;
        assert reg'[q] == reg[q];
        if k + 1 < |p'| {
          assert p'[k + 1] == pending[k];
        }
      } else if |pending| > 0 {
        assert p'[1] == pending[0];
        assert head == pending[0];
      } else {
        assert head == NIL;
      }
    }
    forall a, c | 0 <= a < c < |p'| ensures p'[a] != p'[c] {
      assert p'[c] == pending[c - 1];
      if a > 0 {
        assert p'[a] == pending[a - 1];
      }
    }
    assert forall k :: 0 <= k < |p'| ==>
          reg'[p'[k]].backend != NIL
          && NextFd(reg'[p'[k]].backend) == (if k + 1 < |p'| then p'[k + 1] as int else NIL);
    assert forall k :: 0 <= k < |p'| ==> p'[k] < |reg'|;
    assert fd == (if |p'| == 0 then NIL else p'[0] as int);
    assert Chain(reg', fd, p');
  }

  /** pal_ev_update_events_internal (always returns 0). A request carrying the DEL flag
      that changes something applies the whole pending list at once. */
  method Update(loop: KqLoop, reg: Registry, fd: nat, events: nat, ghost pending: seq<nat>)
    returns (loop': KqLoop, reg': Registry, flushes: seq<seq<Change>>, ghost pending': seq<nat>)
    requires fd < |reg|
    requires reg[fd].loopId == loop.loopId
    requires reg[fd].events < 255
    requires Chain(reg, loop.changedFds, pending)
    requires HasAdd(events) ==> fd !in pending
    requires !HasAdd(events) && fd !in pending ==> reg[fd].backend == NIL
    ensures loop'.loopId == loop.loopId
    ensures |reg'| == |reg|
    ensures Chain(reg', loop'.changedFds, pending')
    ensures var l := Link(reg, loop.changedFds, fd, events);
            && (!l.changed || !HasDel(events) ==>
                  reg' == l.reg && loop'.changedFds == l.head && flushes == []
                  && pending' == (if l.changed && fd !in pending then [fd] + pending else pending))
            && (l.changed && HasDel(events) ==>
                  loop'.changedFds == NIL && pending' == []
                  && Flatten(flushes) == PendingChanges(l.reg, if fd in pending then pending else [fd] + pending)
                  && (forall i :: 0 <= i < |reg| ==>
                        reg'[i] == (if i == fd || i in pending then l.reg[i].(backend := NIL) else reg[i])))
  {
    LinkPreservesChain(reg, loop.changedFds, fd, events, pending);
    var l := Link(reg, loop.changedFds, fd, events);
    if l.changed && HasDel(events) {
      reg', flushes := FlushAll(reg, l.reg, l.head, fd, pending);
      loop' := loop.(changedFds := NIL);
      pending' := [];
    } else {
      pending' := if l.changed && fd !in pending then [fd] + pending else pending;
      reg' := l.reg;
      loop' := loop.(changedFds := l.head);
      flushes := [];
    }
  }

  /** The DEL path of Update: the whole list, with the updated descriptor at its head,
      is applied and emptied. */
  method FlushAll(reg: Registry, linked: Registry, head: int, fd: nat, ghost pending: seq<nat>)
    returns (reg': Registry, flushes: seq<seq<Change>>)
    requires fd < |reg| && |linked| == |reg|
    requires forall i :: 0 <= i < |reg| && i != fd ==> linked[i] == reg[i]
    requires Chain(linked, head, if fd in pending then pending else [fd] + pending)
    ensures |reg'| == |reg|
    ensures Flatten(flushes) == PendingChanges(linked, if fd in pending then pending else [fd] + pending)
    ensures forall i :: 0 <= i < |reg| ==>
              reg'[i] == (if i == fd || i in pending then linked[i].(backend := NIL) else reg[i])
  {
    ghost var listed := if fd in pending then pending else [fd] + pending;
    var head', tail;
    reg', head', flushes, tail := ApplyPendingChanges(linked, head, true, listed);
    FlushClearsListed(reg, linked, fd, pending, listed, reg');
    assert Flatten(flushes) + [] == Flatten(flushes);
  }

  /** After a full flush, the descriptors cleared are the updated one and those listed before. */
  lemma FlushClearsListed(reg: Registry, linked: Registry, fd: nat, pending: seq<nat>,
                          listed: seq<nat>, reg': Registry)
    requires fd < |reg| && |linked| == |reg| && |reg'| == |reg|
    requires forall i :: 0 <= i < |reg| && i != fd ==> linked[i] == reg[i]
    requires listed == if fd in pending then pending else [fd] + pending
    requires forall i :: 0 <= i < |reg| ==>
               reg'[i] == (if i in listed then linked[i].(backend := NIL) else linked[i])
    ensures forall i :: 0 <= i < |reg| ==>
              reg'[i] == (if i == fd || i in pending then linked[i].(backend := NIL) else reg[i])
  {
    forall i | 0 <= i < |reg|
      ensures reg'[i] == (if i == fd || i in pending then linked[i].(backend := NIL) else reg[i])
    {
      assert i in listed <==> i == fd || i in pending;
    }
  }

  // ---------------------------------------------------------------- poll

  /** The revents the switch assigns for a filter (0 after the default's assert). */
  function FilterRevents(filter: int): nat
  {
    if filter == EVFILT_READ then READ else if filter == EVFILT_WRITE then WRITE else 0
  }

  /** The dispatch decision for one reported event, made on the table entry at that moment. */
  function Decide(lid: nat): (FdEntry, KEvent) -> Step<KqCall>
  {
    (e: FdEntry, ev: KEvent) =>
      if e.loopId == lid && -0x8000_0000 <= ev.filter < 0x8000_0000 && FilterTest(ev.filter)
      then Invoke(FilterRevents(ev.filter)) else Skip
  }

  function Ident(ev: KEvent): nat { ev.ident }

  /** The changelist records a trace hands to the kernel, in order. */
  function Submitted(t: seq<Action<KqCall>>): seq<Change>
  {
    if |t| == 0 then []
    else
      var last := t[|t| - 1];
      Submitted(t[..|t| - 1])
        + (if last.Native? then (match last.call case Flush(cs) => cs case Wait(cs, _, _) => cs) else [])
  }

  function FlushCalls(flushes: seq<seq<Change>>): (t: seq<Action<KqCall>>)
    ensures |t| == |flushes|
    ensures forall k :: 0 <= k < |t| ==> t[k] == Native(Flush(flushes[k]))
    ensures Submitted(t) == Flatten(flushes)
  {
    if |flushes| == 0 then []
    else
      var t := FlushCalls(flushes[..|flushes| - 1]) + [Native(Flush(flushes[|flushes| - 1]))];
      assert t[..|t| - 1] == FlushCalls(flushes[..|flushes| - 1]);
      t
  }

  lemma SubmittedAppend(a: seq<Action<KqCall>>, b: seq<Action<KqCall>>)
    ensures Submitted(a + b) == Submitted(a) + Submitted(b)
    decreases |b|
  {
    if |b| == 0 {
      assert a + b == a;
    } else {
      assert (a + b)[..|a + b| - 1] == a + b[..|b| - 1];
      SubmittedAppend(a, b[..|b| - 1]);
    }
  }

  lemma SubmittedOfCalls(t: seq<Action<KqCall>>)
    requires NoNatives(t)
    ensures Submitted(t) == []
  {
    if |t| > 0 {
      SubmittedOfCalls(t[..|t| - 1]);
    }
  }

  predicate NoNatives<N>(t: seq<Action<N>>)
  {
    forall k :: 0 <= k < |t| ==> !t[k].Native?
  }

  /** The events a wait may report: registered descriptors, no changelist error, and only
      the filters the changelist registers. */
  ghost predicate ValidEvents(reg: Registry, evs: seq<KEvent>)
  {
    forall k :: 0 <= k < |evs| ==>
      evs[k].ident < |reg| && !evs[k].error
      && (evs[k].filter == EVFILT_READ || evs[k].filter == EVFILT_WRITE || evs[k].filter == 0)
  }

  /** A decision to invoke carries exactly one of READ and WRITE. */
  lemma DecideInvokesReadOrWrite(lid: nat, e: FdEntry, ev: KEvent)
    requires ev.filter == EVFILT_READ || ev.filter == EVFILT_WRITE || ev.filter == 0
    requires Decide(lid)(e, ev).Invoke?
    ensures Decide(lid)(e, ev).revents == READ || Decide(lid)(e, ev).revents == WRITE
  {
    FilterTestAcceptsNonZero(ev.filter);
  }

  /** The dispatch pass of a poll issues no kernel call. */
  lemma PollDispatchNoNatives(lid: nat, reg: Registry, evs: seq<KEvent>, h: Handler)
    requires SizePreserving(h)
    requires ValidEvents(reg, evs)
    ensures InRange(reg, evs, Ident)
    ensures NoNatives(Dispatch(reg, evs, Ident, Decide(lid), h).0)
  {
    DispatchNativesSatisfy(reg, evs, Ident, Decide(lid), h, (c: KqCall) => false);
  }

  /** The dispatch pass of a poll invokes callbacks with exactly one of READ and WRITE. */
  lemma PollDispatchRevents(lid: nat, reg: Registry, evs: seq<KEvent>, h: Handler)
    requires SizePreserving(h)
    requires ValidEvents(reg, evs)
    ensures InRange(reg, evs, Ident)
    ensures var t := Dispatch(reg, evs, Ident, Decide(lid), h).0;
            forall k :: 0 <= k < |t| && t[k].Call? ==> t[k].inv.revents == READ || t[k].inv.revents == WRITE
  {
    var decide := Decide(lid);
    forall e: FdEntry, k | 0 <= k < |evs| && decide(e, evs[k]).Invoke?
      ensures (var rev := decide(e, evs[k]).revents; rev == READ || rev == WRITE)
    {
      DecideInvokesReadOrWrite(lid, e, evs[k]);
    }
    DispatchCallsSatisfy(reg, evs, Ident, decide, h, (f: nat, rev: nat) => rev == READ || rev == WRITE);
  }

  /** The dispatch pass of a poll never calls back a descriptor the loop does not own,
      provided no callback hands one to the loop. */
  lemma PollDispatchSkipsUnowned(lid: nat, reg: Registry, evs: seq<KEvent>, h: Handler)
    requires SizePreserving(h)
    requires NeverClaims(h, lid)
    requires ValidEvents(reg, evs)
    ensures InRange(reg, evs, Ident)
    ensures var t := Dispatch(reg, evs, Ident, Decide(lid), h).0;
            forall j, k :: 0 <= j < |reg| && reg[j].loopId != lid && 0 <= k < |t| && t[k].Call?
              ==> t[k].inv.fd != j
  {
    forall j | 0 <= j < |reg| && reg[j].loopId != lid
      ensures var t := Dispatch(reg, evs, Ident, Decide(lid), h).0;
              forall k :: 0 <= k < |t| && t[k].Call? ==> t[k].inv.fd != j
    {
      DispatchSkipsUnowned(reg, evs, Ident, Decide(lid), h, lid, j);
    }
  }

  /** The trace of a successful poll: the calls before the wait, then the dispatch pass. */
  lemma PollDispatchTrace(lid: nat, reg0: Registry, reg: Registry, evs: seq<KEvent>, h: Handler,
                          prefix: seq<Action<KqCall>>)
    requires SizePreserving(h)
    requires |reg| == |reg0|
    requires forall i :: 0 <= i < |reg| ==> reg[i].loopId == reg0[i].loopId
    requires ValidEvents(reg0, evs)
    requires NoCalls(prefix)
    ensures InRange(reg, evs, Ident)
    ensures var t := prefix + Dispatch(reg, evs, Ident, Decide(lid), h).0;
            && Submitted(t) == Submitted(prefix)
            && (forall k :: 0 <= k < |t| && t[k].Call? ==> t[k].inv.revents == READ || t[k].inv.revents == WRITE)
            && (NeverClaims(h, lid) ==>
                  forall j, k :: 0 <= j < |reg0| && reg0[j].loopId != lid && 0 <= k < |t| && t[k].Call?
                    ==> t[k].inv.fd != j)
  {
    assert ValidEvents(reg, evs);
    var d := Dispatch(reg, evs, Ident, Decide(lid), h).0;
    PollDispatchNoNatives(lid, reg, evs, h);
    PollDispatchRevents(lid, reg, evs, h);
    if NeverClaims(h, lid) {
      PollDispatchSkipsUnowned(lid, reg, evs, h);
    }
    SubmittedOfCalls(d);
    SubmittedAppend(prefix, d);
    var t := prefix + d;
    forall k | 0 <= k < |t| && t[k].Call?
      ensures k >= |prefix| && t[k] == d[k - |prefix|]
    {
    }
  }

  /** pal_ev_poll_once_internal: apply the pending list (keeping the last records for the
      wait), wait with `max_wait` seconds, and dispatch each reported event whose
      descriptor the loop owns at that moment. */
  method Poll(loop: KqLoop, reg: Registry, maxWait: int, kernel: WaitResult, h: Handler,
              ghost pending: seq<nat>)
    returns (loop': KqLoop, reg': Registry, ret: int, trace: seq<Action<KqCall>>)
    requires Chain(reg, loop.changedFds, pending)
    requires SizePreserving(h)
    requires kernel.WaitFailed? ==> kernel.errno == EACCES || kernel.errno == EFAULT || kernel.errno == EINTR
    requires kernel.WaitReady? ==> |kernel.events| <= EVENTS_SIZE && ValidEvents(reg, kernel.events)
    ensures loop' == loop.(changedFds := NIL)
    ensures |reg'| == |reg|
    ensures Submitted(trace) == PendingChanges(reg, pending)
    ensures ret == (if kernel.WaitFailed? then -1 else 0)
    ensures kernel.WaitFailed? ==> NoCalls(trace)
    ensures forall k :: 0 <= k < |trace| && trace[k].Call? ==>
              trace[k].inv.revents == READ || trace[k].inv.revents == WRITE
    ensures NeverClaims(h, loop.loopId) ==>
              forall j, k :: 0 <= j < |reg| && reg[j].loopId != loop.loopId && 0 <= k < |trace| && trace[k].Call?
                ==> trace[k].inv.fd != j
    ensures kernel.WaitFailed? ==> reg' == Unlink(reg, pending)
    ensures kernel.WaitReady? ==>
              && InRange(Unlink(reg, pending), kernel.events, Ident)
              && PassEnds(trace, Dispatch(Unlink(reg, pending), kernel.events, Ident, Decide(loop.loopId), h).0)
              && reg' == Dispatch(Unlink(reg, pending), kernel.events, Ident, Decide(loop.loopId), h).1
  {
    var flushes, tail, head';
    reg', head', flushes, tail := ApplyPendingChanges(reg, loop.changedFds, false, pending);
    loop' := loop.(changedFds := head');
    var prefix := WaitCalls(flushes, tail, maxWait);
    if kernel.WaitFailed? {
      ret := -1;
      trace := prefix;
      return;
    }
    reg', trace := PollDispatch(loop.loopId, reg, reg', kernel.events, h, prefix);
    ret := 0;
  }

  /** The kernel calls of a poll up to its wait: the changelist-only flushes, then the
      waiting kevent that submits the remaining records. */
  method WaitCalls(flushes: seq<seq<Change>>, tail: seq<Change>, maxWait: int)
    returns (prefix: seq<Action<KqCall>>)
    ensures NoCalls(prefix)
    ensures Submitted(prefix) == Flatten(flushes) + tail
    ensures |prefix| == |flushes| + 1 && prefix[|flushes|] == Native(Wait(tail, maxWait, EVENTS_SIZE))
  {
    var wait: seq<Action<KqCall>> := [Native(Wait(tail, maxWait, EVENTS_SIZE))];
    prefix := FlushCalls(flushes) + wait;
    SubmittedAppend(FlushCalls(flushes), wait);
    assert Submitted(wait) == tail by {
      assert wait[..0] == [];
    }
  }

  /** The part of a successful poll after the wait: the dispatch pass over the reported
      events, run on the table the pending list left, appended to the calls before it. */
  method PollDispatch(lid: nat, reg0: Registry, reg: Registry, evs: seq<KEvent>, h: Handler,
                      prefix: seq<Action<KqCall>>)
    returns (reg': Registry, trace: seq<Action<KqCall>>)
    requires SizePreserving(h)
    requires |reg| == |reg0|
    requires forall i :: 0 <= i < |reg| ==> reg[i].loopId == reg0[i].loopId
    requires ValidEvents(reg0, evs)
    requires NoCalls(prefix)
    ensures InRange(reg, evs, Ident)
    ensures |reg'| == |reg|
    ensures Submitted(trace) == Submitted(prefix)
    ensures forall k :: 0 <= k < |trace| && trace[k].Call? ==>
              trace[k].inv.revents == READ || trace[k].inv.revents == WRITE
    ensures NeverClaims(h, lid) ==>
              forall j, k :: 0 <= j < |reg0| && reg0[j].loopId != lid && 0 <= k < |trace| && trace[k].Call?
                ==> trace[k].inv.fd != j
    ensures PassEnds(trace, Dispatch(reg, evs, Ident, Decide(lid), h).0)
    ensures reg' == Dispatch(reg, evs, Ident, Decide(lid), h).1
  {
    PollDispatchTrace(lid, reg0, reg, evs, h, prefix);
    var d := Dispatch(reg, evs, Ident, Decide(lid), h);
    reg' := d.1;
    trace := prefix + d.0;
    PassEndsAfter(prefix, d.0);
  }

  /** The trace ends with the dispatch pass `d`, and nothing before it is a callback. */
  ghost predicate PassEnds(trace: seq<Action<KqCall>>, d: seq<Action<KqCall>>)
  {
    |d| <= |trace| && trace[|trace| - |d|..] == d && NoCalls(trace[..|trace| - |d|])
  }

  lemma PassEndsAfter(prefix: seq<Action<KqCall>>, d: seq<Action<KqCall>>)
    requires NoCalls(prefix)
    ensures PassEnds(prefix + d, d)
  {
    assert (prefix + d)[..|prefix|] == prefix;
    assert (prefix + d)[|prefix|..] == d;
  }

  /** With callbacks that leave the table alone, every reported read or write event of a
      descriptor the loop owns is called back with READ or WRITE, and its callback
      and argument: the completeness half of the dispatch pass. */
  lemma {:induction false} PollCallsEveryOwned(lid: nat, reg: Registry, evs: seq<KEvent>, h: Handler)
    requires SizePreserving(h) && Inert(h)
    requires ValidEvents(reg, evs)
    ensures InRange(reg, evs, Ident)
    ensures forall k :: 0 <= k < |evs| && reg[evs[k].ident].loopId == lid && evs[k].filter != 0 ==>
              var e := reg[evs[k].ident];
              Call(Invocation(evs[k].ident, FilterRevents(evs[k].filter), e.callback, e.cbArg))
                in Dispatch(reg, evs, Ident, Decide(lid), h).0
    ensures forall k :: 0 <= k < |evs| && evs[k].filter == EVFILT_READ ==> FilterRevents(evs[k].filter) == READ
    ensures forall k :: 0 <= k < |evs| && evs[k].filter == EVFILT_WRITE ==> FilterRevents(evs[k].filter) == WRITE
  {
    assert InRange(reg, evs, Ident);
    DispatchInert(reg, evs, Ident, Decide(lid), h);
    StaticPassCallsEvery(reg, evs, Ident, Decide(lid));
    forall k | 0 <= k < |evs| && reg[evs[k].ident].loopId == lid && evs[k].filter != 0
      ensures Decide(lid)(reg[Ident(evs[k])], evs[k]) == Invoke(FilterRevents(evs[k].filter))
    {
      FilterTestAcceptsNonZero(evs[k].filter);
    }
  }
}
