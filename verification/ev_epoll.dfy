/** The epoll backend: an update chooses which `epoll_ctl` operations to issue, under one
    of two delete policies, and a poll dispatches the events `epoll_wait` reports. */
module EpollBackend {
  import opened EvCore
  import opened EvDispatch

  const EPOLLIN: nat := 0x001
  const EPOLLOUT: nat := 0x004
  const EVENTS_SIZE: nat := 1024

  /** PAL_EV_EPOLL_DEFER_DELETES set (the default) or cleared. */
  datatype Policy = DeferDeletes | ImmediateDeletes

  datatype CtlOp = CtlAdd | CtlMod | CtlDel

  /** A native call: `epoll_ctl(epfd, op, fd, {mask})`, with `checked` recording that the
      source asserts its success; or `epoll_wait` with its capacity and timeout (ms). */
  datatype EpCall = Ctl(op: CtlOp, fd: nat, mask: nat, checked: bool) | Wait(maxEvents: nat, timeoutMs: int)

  /** One reported event: the descriptor stored in `data.fd` and the ready mask. */
  datatype EpEvent = EpEvent(fd: nat, mask: nat)

  /** `epoll_wait` failing, or returning its events. */
  datatype EpWaitResult = EpWaitFailed | EpWaitReady(events: seq<EpEvent>)

  datatype UpdateResult = UpdateResult(ret: int, reg: Registry, calls: seq<EpCall>)

  /** The native interest mask of an update: EPOLLIN for READ, EPOLLOUT for WRITE. */
  function NativeMask(events: nat): (m: nat)
    ensures m % 2 == 1 <==> HasRead(events)
    ensures (m / 4) % 2 == 1 <==> HasWrite(events)
    ensures (m / 2) % 2 == 0 && m < 8
    ensures m == 0 <==> RW(events) == 0
  {
    (if HasRead(events) then EPOLLIN else 0) + (if HasWrite(events) then EPOLLOUT else 0)
  }

  /** pal_ev_update_events_internal. `modFails` is the outcome of the unchecked
      EPOLL_CTL_MOD of the deferred policy (the source asserts its errno is ENOENT). */
  function Update(policy: Policy, reg: Registry, fd: nat, events: nat, modFails: bool): (r: UpdateResult)
    requires fd < |reg|
    ensures r.ret == 0
    ensures |r.reg| == |reg|
    ensures forall i :: 0 <= i < |reg| && i != fd ==> r.reg[i] == reg[i]
    ensures RW(events) == reg[fd].events ==> r.reg == reg && r.calls == []
    ensures RW(events) != reg[fd].events ==> r.reg[fd] == reg[fd].(events := events)
    ensures forall k :: 0 <= k < |r.calls| ==>
              r.calls[k].Ctl? && r.calls[k].fd == fd && r.calls[k].mask == NativeMask(events)
    ensures policy == DeferDeletes && RW(events) != reg[fd].events ==>
              && (HasDel(events) ==> r.calls == [])
              && (!HasDel(events) && RW(events) == 0 ==> r.calls == [Ctl(CtlDel, fd, 0, true)])
              && (!HasDel(events) && RW(events) != 0 ==>
                    |r.calls| == (if modFails then 2 else 1)
                    && r.calls[0] == Ctl(CtlMod, fd, NativeMask(events), false)
                    && (modFails ==> r.calls[1] == Ctl(CtlAdd, fd, NativeMask(events), true)))
    ensures policy == ImmediateDeletes && RW(events) != reg[fd].events ==>
              |r.calls| == 1 && r.calls[0].checked
              && r.calls[0].op == (if RW(events) == 0 then CtlDel
                                   else if reg[fd].events == 0 then CtlAdd else CtlMod)
  {
    if RW(events) == reg[fd].events then UpdateResult(0, reg, [])
    else
      var mask := NativeMask(events);
      var calls :=
        match policy
        case DeferDeletes =>
          if HasDel(events) then []
          else if RW(events) == 0 then [Ctl(CtlDel, fd, mask, true)]
          else [Ctl(CtlMod, fd, mask, false)] + (if modFails then [Ctl(CtlAdd, fd, mask, true)] else [])
        case ImmediateDeletes =>
          if RW(events) == 0 then [Ctl(CtlDel, fd, mask, true)]
          else [Ctl(if reg[fd].events == 0 then CtlAdd else CtlMod, fd, mask, true)];
      UpdateResult(0, reg[fd := reg[fd].(events := events)], calls)
  }

  // ---------------------------------------------------------------- kernel view

  /** The interest list of the loop's epoll instance: descriptor to registered mask. */
  type Interest = map<nat, nat>

  /** One `epoll_ctl` against the interest list, and whether it succeeds: ADD fails on a
      registered descriptor (EEXIST), MOD and DEL on an unregistered one (ENOENT). */
  function CtlApply(k: Interest, c: EpCall): (r: (Interest, bool))
    requires c.Ctl?
    ensures r.1 <==> (if c.op == CtlAdd then c.fd !in k else c.fd in k)
    ensures !r.1 ==> r.0 == k
    ensures r.1 && c.op != CtlDel ==> r.0 == k[c.fd := c.mask]
    ensures r.1 && c.op == CtlDel ==> r.0 == k - {c.fd}
  {
    match c.op
    case CtlAdd => if c.fd in k then (k, false) else (k[c.fd := c.mask], true)
    case CtlMod => if c.fd in k then (k[c.fd := c.mask], true) else (k, false)
    case CtlDel => if c.fd in k then (k - {c.fd}, true) else (k, false)
  }

  /** Runs a sequence of `epoll_ctl` calls; the flag says every checked call succeeded. */
  function CtlRun(k: Interest, cs: seq<EpCall>): (r: (Interest, bool))
    requires forall i :: 0 <= i < |cs| ==> cs[i].Ctl?
    decreases |cs|
  {
    if |cs| == 0 then (k, true)
    else
      var step := CtlApply(k, cs[0]);
      var rest := CtlRun(step.0, cs[1..]);
      if step.1 || !cs[0].checked then rest else (rest.0, false)
  }

  /** An entry that is idle (mask 0) or watching with no delete pending: the state the
      table is in between updates of an fd the loop owns. */
  predicate Settled(e: FdEntry)
  {
    e.events == 0 || (RW(e.events) != 0 && !HasDel(e.events))
  }

  /** Immediate policy: the kernel registers exactly the owned descriptors that watch
      something, with their native mask. */
  ghost predicate InSync(reg: Registry, k: Interest, lid: nat)
  {
    forall i :: 0 <= i < |reg| && reg[i].loopId == lid ==>
      (i in k <==> RW(reg[i].events) != 0) && (i in k ==> k[i] == NativeMask(reg[i].events))
  }

  /** Deferred policy: every owned descriptor that watches something (and has no delete
      pending) is registered with its native mask; stale registrations may remain. */
  ghost predicate CoversWatched(reg: Registry, k: Interest, lid: nat)
  {
    forall i :: 0 <= i < |reg| && reg[i].loopId == lid && RW(reg[i].events) != 0 && !HasDel(reg[i].events) ==>
      i in k && k[i] == NativeMask(reg[i].events)
  }

  lemma CtlRunOne(k: Interest, c: EpCall)
    requires c.Ctl?
    ensures CtlRun(k, [c]) == (CtlApply(k, c).0, CtlApply(k, c).1 || !c.checked)
  {
    assert [c][1..] == [];
  }

  lemma CtlRunTwo(k: Interest, c: EpCall, c': EpCall)
    requires c.Ctl? && c'.Ctl?
    ensures var k1 := CtlApply(k, c).0;
            CtlRun(k, [c, c']) == (CtlApply(k1, c').0, (CtlApply(k, c).1 || !c.checked) && (CtlApply(k1, c').1 || !c'.checked))
  {
    assert [c, c'][1..] == [c'];
    CtlRunOne(CtlApply(k, c).0, c');
  }

  /** Under the immediate policy every checked `epoll_ctl` of an update succeeds and the
      kernel stays in sync with the table. */
  lemma ImmediateUpdateKeepsSync(reg: Registry, k: Interest, lid: nat, fd: nat, events: nat)
    requires fd < |reg| && reg[fd].loopId == lid
    requires reg[fd].events == 0 || RW(reg[fd].events) != 0
    requires InSync(reg, k, lid)
    ensures var r := Update(ImmediateDeletes, reg, fd, events, false);
            var run := CtlRun(k, r.calls);
            run.1 && InSync(r.reg, run.0, lid)
  {
    var r := Update(ImmediateDeletes, reg, fd, events, false);
    if |r.calls| == 1 {
      assert r.calls == [r.calls[0]];
      CtlRunOne(k, r.calls[0]);
    }
  }

  /** Under the deferred policy, with the outcome of MOD decided by the kernel (it fails
      exactly when the fd is not registered), every checked `epoll_ctl` succeeds and every
      watched descriptor stays registered with its mask. */
  lemma DeferredUpdateCoversWatched(reg: Registry, k: Interest, lid: nat, fd: nat, events: nat, modFails: bool)
    requires fd < |reg| && reg[fd].loopId == lid
    requires modFails <==> fd !in k
    requires Settled(reg[fd])
    requires CoversWatched(reg, k, lid)
    ensures var r := Update(DeferDeletes, reg, fd, events, modFails);
            var run := CtlRun(k, r.calls);
            run.1 && CoversWatched(r.reg, run.0, lid)
  {
    var r := Update(DeferDeletes, reg, fd, events, modFails);
    if |r.calls| == 1 {
      assert r.calls == [r.calls[0]];
      CtlRunOne(k, r.calls[0]);
    } else if |r.calls| == 2 {
      assert r.calls == [r.calls[0], r.calls[1]];
      CtlRunTwo(k, r.calls[0], r.calls[1]);
    }
  }

  // ---------------------------------------------------------------- poll

  /** The revents a reported mask yields: READ for EPOLLIN, WRITE for EPOLLOUT. */
  function Revents(mask: nat): (rev: nat)
    ensures rev <= READWRITE
    ensures HasRead(rev) <==> (mask / EPOLLIN) % 2 == 1
    ensures HasWrite(rev) <==> (mask / EPOLLOUT) % 2 == 1
  {
    (if (mask / EPOLLIN) % 2 == 1 then READ else 0) + (if (mask / EPOLLOUT) % 2 == 1 then WRITE else 0)
  }

  /** The decision for one reported event, made on the table entry at that moment. */
  function Decide(policy: Policy, lid: nat): (FdEntry, EpEvent) -> Step<EpCall>
  {
    (e: FdEntry, ev: EpEvent) =>
      if e.loopId == lid && RW(e.events) != 0 then
        (if Revents(ev.mask) != 0 then Invoke(Revents(ev.mask)) else Skip)
      else if policy == DeferDeletes then Emit(Ctl(CtlDel, ev.fd, 0, false))
      else Skip
  }

  function EventFd(ev: EpEvent): nat { ev.fd }

  ghost predicate ValidEvents(reg: Registry, evs: seq<EpEvent>)
  {
    |evs| <= EVENTS_SIZE && forall k :: 0 <= k < |evs| ==> evs[k].fd < |reg|
  }

  datatype PollResult = PollResult(ret: int, reg: Registry, trace: seq<Action<EpCall>>)

  /** pal_ev_poll_once_internal: wait (timeout in milliseconds), then dispatch. */
  function Poll(policy: Policy, lid: nat, reg: Registry, maxWait: int, kernel: EpWaitResult, h: Handler): (r: PollResult)
    requires SizePreserving(h)
    requires kernel.EpWaitReady? ==> ValidEvents(reg, kernel.events)
    ensures |r.reg| == |reg|
    ensures |r.trace| > 0 && r.trace[0] == Native(Wait(EVENTS_SIZE, maxWait * 1000))
    ensures kernel.EpWaitFailed? ==> r.ret == -1 && r.reg == reg && |r.trace| == 1
    ensures kernel.EpWaitReady? ==> r.ret == 0
  {
    var wait := Native(Wait(EVENTS_SIZE, maxWait * 1000));
    match kernel
    case EpWaitFailed => PollResult(-1, reg, [wait])
    case EpWaitReady(evs) =>
      var d := Dispatch(reg, evs, EventFd, Decide(policy, lid), h);
      PollResult(0, d.1, [wait] + d.0)
  }

  /** The dispatch pass invokes callbacks with a non-zero subset of READ|WRITE. */
  lemma DispatchReventsNonZero(policy: Policy, lid: nat, reg: Registry, evs: seq<EpEvent>, h: Handler)
    requires SizePreserving(h)
    requires ValidEvents(reg, evs)
    ensures InRange(reg, evs, EventFd)
    ensures var d := Dispatch(reg, evs, EventFd, Decide(policy, lid), h).0;
            forall k :: 0 <= k < |d| && d[k].Call? ==> 0 < d[k].inv.revents <= READWRITE
  {
    var P := (f: nat, rev: nat) => 0 < rev <= READWRITE;
    forall e: FdEntry, k | 0 <= k < |evs| && Decide(policy, lid)(e, evs[k]).Invoke?
      ensures P(EventFd(evs[k]), Decide(policy, lid)(e, evs[k]).revents)
    {
      assert Decide(policy, lid)(e, evs[k]).revents == Revents(evs[k].mask);
    }
    DispatchCallsSatisfy(reg, evs, EventFd, Decide(policy, lid), h, P);
  }

  /** The only native calls of the dispatch pass are unchecked EPOLL_CTL_DELs, issued
      only under the deferred policy. */
  lemma DispatchEmitsOnlyDeletes(policy: Policy, lid: nat, reg: Registry, evs: seq<EpEvent>, h: Handler)
    requires SizePreserving(h)
    requires ValidEvents(reg, evs)
    ensures InRange(reg, evs, EventFd)
    ensures var d := Dispatch(reg, evs, EventFd, Decide(policy, lid), h).0;
            forall k :: 0 <= k < |d| && d[k].Native? ==>
              policy == DeferDeletes && d[k].call.Ctl? && d[k].call.op == CtlDel && !d[k].call.checked
  {
    DispatchNativesSatisfy(reg, evs, EventFd, Decide(policy, lid), h,
                           (c: EpCall) => policy == DeferDeletes && c.Ctl? && c.op == CtlDel && !c.checked);
  }

  /** A descriptor the loop does not own when the pass starts is never called back. */
  lemma DispatchSkipsForeign(policy: Policy, lid: nat, reg: Registry, evs: seq<EpEvent>, h: Handler)
    requires SizePreserving(h)
    requires NeverClaims(h, lid)
    requires ValidEvents(reg, evs)
    ensures InRange(reg, evs, EventFd)
    ensures var d := Dispatch(reg, evs, EventFd, Decide(policy, lid), h).0;
            forall j, k :: 0 <= j < |reg| && reg[j].loopId != lid && 0 <= k < |d| && d[k].Call?
              ==> d[k].inv.fd != j
  {
    forall j | 0 <= j < |reg| && reg[j].loopId != lid
      ensures var d := Dispatch(reg, evs, EventFd, Decide(policy, lid), h).0;
              forall k :: 0 <= k < |d| && d[k].Call? ==> d[k].inv.fd != j
    {
      DispatchSkipsUnowned(reg, evs, EventFd, Decide(policy, lid), h, lid, j);
    }
  }

  /** Callbacks are invoked with a non-zero subset of READ|WRITE; the only other actions
      after the wait are unchecked EPOLL_CTL_DELs, and only under the deferred policy; a
      descriptor the loop does not own when the pass starts is never called back. */
  lemma PollTraceFacts(policy: Policy, lid: nat, reg: Registry, maxWait: int, kernel: EpWaitResult, h: Handler)
    requires SizePreserving(h)
    requires kernel.EpWaitReady? ==> ValidEvents(reg, kernel.events)
    ensures var t := Poll(policy, lid, reg, maxWait, kernel, h).trace;
            && (kernel.EpWaitFailed? ==> NoCalls(t))
            && (forall k :: 0 <= k < |t| && t[k].Call? ==> 0 < t[k].inv.revents <= READWRITE)
            && (forall k :: 1 <= k < |t| && t[k].Native? ==>
                  policy == DeferDeletes && t[k].call.Ctl? && t[k].call.op == CtlDel && !t[k].call.checked)
            && (NeverClaims(h, lid) ==>
                  forall j, k :: 0 <= j < |reg| && reg[j].loopId != lid && 0 <= k < |t| && t[k].Call?
                    ==> t[k].inv.fd != j)
  {
    if kernel.EpWaitReady? {
      var evs := kernel.events;
      DispatchReventsNonZero(policy, lid, reg, evs, h);
      DispatchEmitsOnlyDeletes(policy, lid, reg, evs, h);
      if NeverClaims(h, lid) {
        DispatchSkipsForeign(policy, lid, reg, evs, h);
      }
      PollTraceShape(policy, lid, reg, maxWait, evs, h);
    }
  }

  /** After the wait, the trace of a successful poll is the dispatch pass. */
  lemma PollTraceShape(policy: Policy, lid: nat, reg: Registry, maxWait: int, evs: seq<EpEvent>, h: Handler)
    requires SizePreserving(h)
    requires ValidEvents(reg, evs)
    ensures InRange(reg, evs, EventFd)
    ensures var t := Poll(policy, lid, reg, maxWait, EpWaitReady(evs), h).trace;
            |t| == 1 + |Dispatch(reg, evs, EventFd, Decide(policy, lid), h).0|
            && forall k :: 1 <= k < |t| ==> t[k] == Dispatch(reg, evs, EventFd, Decide(policy, lid), h).0[k - 1]
  {
  }

  /** Under deferral a notification for a descriptor the loop does not own, or whose
      recorded mask watches nothing, yields one unchecked EPOLL_CTL_DEL and no callback;
      under the immediate policy it is skipped. A watched, owned descriptor is called back
      with the reported readiness, unless the report has neither EPOLLIN nor EPOLLOUT. */
  lemma PollHandlesOneEvent(policy: Policy, lid: nat, reg: Registry, ev: EpEvent, h: Handler)
    requires SizePreserving(h)
    requires ev.fd < |reg|
    ensures var e := reg[ev.fd];
            var hd := Head(reg, ev, EventFd, Decide(policy, lid), h);
            && (e.loopId != lid || RW(e.events) == 0 ==>
                  hd == (if policy == DeferDeletes then [Native(Ctl(CtlDel, ev.fd, 0, false))] else [], reg))
            && (e.loopId == lid && RW(e.events) != 0 ==>
                  hd.0 == (if Revents(ev.mask) == 0 then []
                           else [Call(Invocation(ev.fd, Revents(ev.mask), e.callback, e.cbArg))]))
  {
  }
}
