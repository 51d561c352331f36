/** The `select` backend: an update only records the mask; a poll builds the read and
    write sets from the table, waits, and walks the table in ascending order, checking
    ownership again before each callback. */
module SelectBackend {
  import opened EvCore
  import opened EvDispatch

  /** `select(nfds, readfds, writefds, errorfds, {timeout, 0})`; the error set stays empty. */
  datatype SelCall = Select(nfds: nat, readSet: set<nat>, writeSet: set<nat>, timeoutSec: int)

  /** What `select` returns: failure, or a count with the sets it left set. */
  datatype SelectResult = SelectFailed | SelectReturned(n: int, readOut: set<nat>, writeOut: set<nat>)

  /** The descriptors of loop `lid` whose recorded mask has READ, resp. WRITE. */
  function ReadSetOf(reg: Registry, lid: nat): set<nat>
  {
    set i: nat | i < |reg| && reg[i].loopId == lid && HasRead(reg[i].events)
  }

  function WriteSetOf(reg: Registry, lid: nat): set<nat>
  {
    set i: nat | i < |reg| && reg[i].loopId == lid && HasWrite(reg[i].events)
  }

  /** `maxfd` is the largest descriptor in either set, or 0 when both are empty. */
  predicate IsMaxFd(maxfd: nat, rset: set<nat>, wset: set<nat>)
  {
    && (rset + wset == {} ==> maxfd == 0)
    && (rset + wset != {} ==> maxfd in rset + wset)
    && (forall i :: i in rset + wset ==> i <= maxfd)
  }

  /** pal_ev_update_events_internal: store `events & PAL_EV_READWRITE` and return 0. */
  function Update(reg: Registry, fd: nat, events: nat): (r: (int, Registry))
    requires fd < |reg|
    ensures r.0 == 0
    ensures |r.1| == |reg|
    ensures r.1[fd].events == RW(events)
    ensures forall i :: 0 <= i < |reg| ==>
              r.1[i].loopId == reg[i].loopId && r.1[i].callback == reg[i].callback
              && r.1[i].cbArg == reg[i].cbArg && r.1[i].backend == reg[i].backend
    ensures forall i :: 0 <= i < |reg| && i != fd ==> r.1[i] == reg[i]
  {
    (0, reg[fd := reg[fd].(events := RW(events))])
  }

  /** After an update of an owned descriptor, the next poll watches it for reading exactly
      when the new mask has READ, and for writing exactly when it has WRITE; nothing else
      in the sets moves. */
  lemma UpdateThenWatch(reg: Registry, lid: nat, fd: nat, events: nat)
    requires fd < |reg| && reg[fd].loopId == lid
    ensures var reg' := Update(reg, fd, events).1;
            && ReadSetOf(reg', lid) == (if HasRead(events) then ReadSetOf(reg, lid) + {fd} else ReadSetOf(reg, lid) - {fd})
            && WriteSetOf(reg', lid) == (if HasWrite(events) then WriteSetOf(reg, lid) + {fd} else WriteSetOf(reg, lid) - {fd})
  {
    var reg' := Update(reg, fd, events).1;
    assert ReadSetOf(reg', lid) == (if HasRead(events) then ReadSetOf(reg, lid) + {fd} else ReadSetOf(reg, lid) - {fd}) by {
      forall i: nat
        ensures i in ReadSetOf(reg', lid) <==> i in (if HasRead(events) then ReadSetOf(reg, lid) + {fd} else ReadSetOf(reg, lid) - {fd})
      {
        if i == fd {
          assert reg'[i].events == RW(events);
        }
      }
    }
    assert WriteSetOf(reg', lid) == (if HasWrite(events) then WriteSetOf(reg, lid) + {fd} else WriteSetOf(reg, lid) - {fd}) by {
      forall i: nat
        ensures i in WriteSetOf(reg', lid) <==> i in (if HasWrite(events) then WriteSetOf(reg, lid) + {fd} else WriteSetOf(reg, lid) - {fd})
      {
        if i == fd {
          assert reg'[i].events == RW(events);
        }
      }
    }
  }

  /** The setup loop of pal_ev_poll_once_internal. */
  method BuildSets(reg: Registry, lid: nat) returns (rset: set<nat>, wset: set<nat>, maxfd: nat)
    ensures rset == ReadSetOf(reg, lid)
    ensures wset == WriteSetOf(reg, lid)
    ensures IsMaxFd(maxfd, rset, wset)
  {
    rset, wset, maxfd := {}, {}, 0;
    var i := 0;
    while i < |reg|
      invariant 0 <= i <= |reg|
      invariant rset == set j: nat | j < i && reg[j].loopId == lid && HasRead(reg[j].events)
      invariant wset == set j: nat | j < i && reg[j].loopId == lid && HasWrite(reg[j].events)
      invariant IsMaxFd(maxfd, rset, wset)
    {
      if reg[i].loopId == lid {
        if HasRead(reg[i].events) {
          rset := rset + {i};
          if maxfd < i {
            maxfd := i;
          }
        }
        if HasWrite(reg[i].events) {
          wset := wset + {i};
          if maxfd < i {
            maxfd := i;
          }
        }
      }
      assert rset == set j: nat | j < i + 1 && reg[j].loopId == lid && HasRead(reg[j].events);
      assert wset == set j: nat | j < i + 1 && reg[j].loopId == lid && HasWrite(reg[j].events);
      i := i + 1;
    }
  }

  /** The descriptors 0 .. n-1 in ascending order: the order of the dispatch loop. */
  function Indices(n: nat): (s: seq<nat>)
    ensures |s| == n
    ensures forall k :: 0 <= k < n ==> s[k] == k
  {
    if n == 0 then [] else Indices(n - 1) + [n - 1]
  }

  function Id(i: nat): nat { i }

  /** The revents of descriptor `i` from the sets `select` left set. */
  function Revents(i: nat, readOut: set<nat>, writeOut: set<nat>): (rev: nat)
    ensures rev <= READWRITE
    ensures HasRead(rev) <==> i in readOut
    ensures HasWrite(rev) <==> i in writeOut
  {
    (if i in readOut then READ else 0) + (if i in writeOut then WRITE else 0)
  }

  /** The decision for descriptor `i`, made on its table entry at the visit. */
  function Decide(lid: nat, readOut: set<nat>, writeOut: set<nat>): (FdEntry, nat) -> Step<SelCall>
  {
    (e: FdEntry, i: nat) =>
      if e.loopId == lid && Revents(i, readOut, writeOut) != 0 then Invoke(Revents(i, readOut, writeOut))
      else Skip
  }

  /** Every callback of the pass gets a non-zero mask whose READ bit says the descriptor
      stayed in the read set and whose WRITE bit says it stayed in the write set. */
  lemma PassRevents(lid: nat, reg: Registry, readOut: set<nat>, writeOut: set<nat>, h: Handler)
    requires SizePreserving(h)
    ensures InRange(reg, Indices(|reg|), Id)
    ensures var t := Dispatch(reg, Indices(|reg|), Id, Decide(lid, readOut, writeOut), h).0;
            forall k :: 0 <= k < |t| && t[k].Call? ==>
              && 0 < t[k].inv.revents <= READWRITE
              && (HasRead(t[k].inv.revents) <==> t[k].inv.fd in readOut)
              && (HasWrite(t[k].inv.revents) <==> t[k].inv.fd in writeOut)
  {
    var items := Indices(|reg|);
    var decide := Decide(lid, readOut, writeOut);
    forall e: FdEntry, k | 0 <= k < |items| && decide(e, items[k]).Invoke?
      ensures (var rev := decide(e, items[k]).revents; var f := Id(items[k]);
               0 < rev <= READWRITE && (HasRead(rev) <==> f in readOut) && (HasWrite(rev) <==> f in writeOut))
    {
      var i := items[k];
      assert decide(e, i).revents == Revents(i, readOut, writeOut);
      assert Id(i) == i;
    }
    DispatchCallsSatisfy(reg, items, Id, decide, h,
      (f: nat, rev: nat) => 0 < rev <= READWRITE && (HasRead(rev) <==> f in readOut) && (HasWrite(rev) <==> f in writeOut));
  }

  /** The pass calls back in strictly ascending descriptor order and issues no kernel call. */
  lemma PassAscending(lid: nat, reg: Registry, readOut: set<nat>, writeOut: set<nat>, h: Handler)
    requires SizePreserving(h)
    ensures InRange(reg, Indices(|reg|), Id)
    ensures var t := Dispatch(reg, Indices(|reg|), Id, Decide(lid, readOut, writeOut), h).0;
            && NoNativesIn(t)
            && forall a, b :: 0 <= a < b < |t| ==> t[a].inv.fd < t[b].inv.fd
  {
    var items := Indices(|reg|);
    var decide := Decide(lid, readOut, writeOut);
    DispatchAscending(reg, items, Id, decide, h);
    DispatchNativesSatisfy(reg, items, Id, decide, h, (c: SelCall) => false);
  }

  predicate NoNativesIn(t: seq<Action<SelCall>>)
  {
    forall k :: 0 <= k < |t| ==> t[k].Call?
  }

  /** A descriptor the loop does not own when the pass starts is never called back. */
  lemma PassSkipsForeign(lid: nat, reg: Registry, readOut: set<nat>, writeOut: set<nat>, h: Handler)
    requires SizePreserving(h)
    requires NeverClaims(h, lid)
    ensures InRange(reg, Indices(|reg|), Id)
    ensures var t := Dispatch(reg, Indices(|reg|), Id, Decide(lid, readOut, writeOut), h).0;
            forall j, k :: 0 <= j < |reg| && reg[j].loopId != lid && 0 <= k < |t| && t[k].Call?
              ==> t[k].inv.fd != j
  {
    forall j | 0 <= j < |reg| && reg[j].loopId != lid
      ensures var t := Dispatch(reg, Indices(|reg|), Id, Decide(lid, readOut, writeOut), h).0;
              forall k :: 0 <= k < |t| && t[k].Call? ==> t[k].inv.fd != j
    {
      DispatchSkipsUnowned(reg, Indices(|reg|), Id, Decide(lid, readOut, writeOut), h, lid, j);
    }
  }

  /** A descriptor that the callbacks for descriptors 0 .. m-1 release from the loop is not
      called back later in the same pass. */
  lemma PassSkipsReleased(lid: nat, reg: Registry, readOut: set<nat>, writeOut: set<nat>, h: Handler,
                          m: nat, j: nat)
    requires SizePreserving(h)
    requires NeverClaims(h, lid)
    requires m <= |reg| && j < |reg|
    requires InRange(reg, Indices(|reg|)[..m], Id)
    requires Dispatch(reg, Indices(|reg|)[..m], Id, Decide(lid, readOut, writeOut), h).1[j].loopId != lid
    ensures InRange(reg, Indices(|reg|), Id)
    ensures var n := |Dispatch(reg, Indices(|reg|)[..m], Id, Decide(lid, readOut, writeOut), h).0|;
            var t := Dispatch(reg, Indices(|reg|), Id, Decide(lid, readOut, writeOut), h).0;
            forall k :: n <= k < |t| && t[k].Call? ==> t[k].inv.fd != j
  {
    var items := Indices(|reg|);
    var decide := Decide(lid, readOut, writeOut);
    IndicesInRange(reg);
    DecideOwnsOnly(lid, readOut, writeOut);
    SplitAt(items, m);
    DispatchSkipsReleased(reg, items[..m], items[m..], Id, decide, h, lid, j);
  }

  lemma SplitAt<T>(s: seq<T>, m: nat)
    requires m <= |s|
    ensures s == s[..m] + s[m..]
  {
  }

  lemma IndicesInRange(reg: Registry)
    ensures InRange(reg, Indices(|reg|), Id)
  {
  }

  lemma DecideOwnsOnly(lid: nat, readOut: set<nat>, writeOut: set<nat>)
    ensures forall e: FdEntry, i: nat :: Decide(lid, readOut, writeOut)(e, i).Invoke? ==> e.loopId == lid
  {
  }

  /** pal_ev_poll_once_internal. */
  method Poll(lid: nat, reg: Registry, maxWait: int, kernel: SelectResult, h: Handler)
    returns (reg': Registry, ret: int, trace: seq<Action<SelCall>>)
    requires SizePreserving(h)
    requires kernel.SelectReturned? ==>
               kernel.n >= 0 && kernel.readOut <= ReadSetOf(reg, lid) && kernel.writeOut <= WriteSetOf(reg, lid)
    ensures |reg'| == |reg|
    ensures |trace| >= 1 && trace[0].Native?
    ensures var s := trace[0].call;
            s.readSet == ReadSetOf(reg, lid) && s.writeSet == WriteSetOf(reg, lid)
            && s.nfds >= 1 && IsMaxFd(s.nfds - 1, s.readSet, s.writeSet) && s.timeoutSec == maxWait
    ensures ret == (if kernel.SelectFailed? then -1 else 0)
    ensures kernel.SelectFailed? || kernel.n == 0 ==> trace == trace[..1] && reg' == reg
    ensures forall k :: 1 <= k < |trace| ==> trace[k].Call?
    ensures forall a, b :: 1 <= a < b < |trace| ==> trace[a].inv.fd < trace[b].inv.fd
    ensures forall k :: 1 <= k < |trace| ==>
              var inv := trace[k].inv;
              && 0 < inv.revents <= READWRITE
              && (HasRead(inv.revents) <==> inv.fd in kernel.readOut)
              && (HasWrite(inv.revents) <==> inv.fd in kernel.writeOut)
              && (HasRead(inv.revents) ==> inv.fd < |reg| && HasRead(reg[inv.fd].events))
              && (HasWrite(inv.revents) ==> inv.fd < |reg| && HasWrite(reg[inv.fd].events))
    ensures NeverClaims(h, lid) ==>
              forall j, k :: 0 <= j < |reg| && reg[j].loopId != lid && 1 <= k < |trace| ==> trace[k].inv.fd != j
    ensures kernel.SelectReturned? && kernel.n > 0 ==>
              && InRange(reg, Indices(|reg|), Id)
              && trace[1..] == Dispatch(reg, Indices(|reg|), Id, Decide(lid, kernel.readOut, kernel.writeOut), h).0
              && reg' == Dispatch(reg, Indices(|reg|), Id, Decide(lid, kernel.readOut, kernel.writeOut), h).1
  {
    var rset, wset, maxfd := BuildSets(reg, lid);
    var sel := Native(Select(maxfd + 1, rset, wset, maxWait));
    trace := [sel];
    reg' := reg;
    if kernel.SelectFailed? {
      ret := -1;
      return;
    }
    ret := 0;
    if kernel.n > 0 {
      reg', trace := RunPass(lid, reg, kernel.readOut, kernel.writeOut, h, sel);
    }
  }

  /** The dispatch loop after a successful `select`, appended to the `select` call. */
  method RunPass(lid: nat, reg: Registry, readOut: set<nat>, writeOut: set<nat>, h: Handler,
                 sel: Action<SelCall>)
    returns (reg': Registry, trace: seq<Action<SelCall>>)
    requires SizePreserving(h)
    requires readOut <= ReadSetOf(reg, lid) && writeOut <= WriteSetOf(reg, lid)
    ensures InRange(reg, Indices(|reg|), Id)
    ensures |trace| >= 1 && trace[0] == sel
    ensures trace[1..] == Dispatch(reg, Indices(|reg|), Id, Decide(lid, readOut, writeOut), h).0
    ensures reg' == Dispatch(reg, Indices(|reg|), Id, Decide(lid, readOut, writeOut), h).1
    ensures |reg'| == |reg|
    ensures forall k :: 1 <= k < |trace| ==> trace[k].Call?
    ensures forall a, b :: 1 <= a < b < |trace| ==> trace[a].inv.fd < trace[b].inv.fd
    ensures forall k :: 1 <= k < |trace| ==>
              var inv := trace[k].inv;
              && 0 < inv.revents <= READWRITE
              && (HasRead(inv.revents) <==> inv.fd in readOut)
              && (HasWrite(inv.revents) <==> inv.fd in writeOut)
              && (HasRead(inv.revents) ==> inv.fd < |reg| && HasRead(reg[inv.fd].events))
              && (HasWrite(inv.revents) ==> inv.fd < |reg| && HasWrite(reg[inv.fd].events))
    ensures NeverClaims(h, lid) ==>
              forall j, k :: 0 <= j < |reg| && reg[j].loopId != lid && 1 <= k < |trace| ==> trace[k].inv.fd != j
  {
    PassRevents(lid, reg, readOut, writeOut, h);
    PassAscending(lid, reg, readOut, writeOut, h);
    if NeverClaims(h, lid) {
      PassSkipsForeign(lid, reg, readOut, writeOut, h);
    }
    var d := Dispatch(reg, Indices(|reg|), Id, Decide(lid, readOut, writeOut), h);
    reg' := d.1;
    trace := [sel] + d.0;
    forall k | 1 <= k < |trace|
      ensures trace[k] == d.0[k - 1]
    {
    }
    assert trace[1..] == d.0;
  }

  /** With callbacks that leave the table alone, the pass calls back every descriptor the
      loop owns that `select` left in the read or the write set, with exactly the
      readiness it reported: the completeness half of the pass. */
  lemma {:induction false} PassCallsEveryReady(lid: nat, reg: Registry, readOut: set<nat>, writeOut: set<nat>,
                                               h: Handler)
    requires SizePreserving(h) && Inert(h)
    ensures InRange(reg, Indices(|reg|), Id)
    ensures forall i :: 0 <= i < |reg| && reg[i].loopId == lid && (i in readOut || i in writeOut) ==>
              Call(Invocation(i, Revents(i, readOut, writeOut), reg[i].callback, reg[i].cbArg))
                in Dispatch(reg, Indices(|reg|), Id, Decide(lid, readOut, writeOut), h).0
  {
    var items := Indices(|reg|);
    var decide := Decide(lid, readOut, writeOut);
    IndicesInRange(reg);
    DispatchInert(reg, items, Id, decide, h);
    StaticPassCallsEvery(reg, items, Id, decide);
    forall i | 0 <= i < |reg| && reg[i].loopId == lid && (i in readOut || i in writeOut)
      ensures Call(Invocation(i, Revents(i, readOut, writeOut), reg[i].callback, reg[i].cbArg))
                in StaticPass(reg, items, Id, decide)
    {
      assert items[i] == i && Id(items[i]) == i;
      assert decide(reg[i], items[i]) == Invoke(Revents(i, readOut, writeOut));
    }
  }
}
