/** The dispatch pass every backend runs after its kernel wait: walk the reported items
    in order, look the descriptor up in the table as it is at that moment, and either
    invoke the callback, issue a native call, or skip the item. */
module EvDispatch {
  import opened EvCore

  /** A backend's decision for one item, from the table entry it sees at the visit. */
  datatype Step<N> = Invoke(revents: nat) | Emit(call: N) | Skip

  ghost predicate InRange<I>(reg: Registry, items: seq<I>, fdOf: I -> nat)
  {
    forall k :: 0 <= k < |items| ==> fdOf(items[k]) < |reg|
  }

  /** Runs the pass. A callback's effect on the table (`h`) is visible to every later item. */
  function Dispatch<I, N>(reg: Registry, items: seq<I>, fdOf: I -> nat,
                          decide: (FdEntry, I) -> Step<N>, h: Handler): (r: (seq<Action<N>>, Registry))
    requires SizePreserving(h)
    requires InRange(reg, items, fdOf)
    ensures |r.1| == |reg|
    ensures |r.0| <= |items|
    decreases |items|
  {
    if |items| == 0 then ([], reg)
    else
      var it := items[0];
      var fd := fdOf(it);
      var e := reg[fd];
      match decide(e, it)
      case Invoke(rev) =>
        var inv := Invocation(fd, rev, e.callback, e.cbArg);
        var rest := Dispatch(h(reg, inv), items[1..], fdOf, decide, h);
        ([Call(inv)] + rest.0, rest.1)
      case Emit(c) =>
        var rest := Dispatch(reg, items[1..], fdOf, decide, h);
        ([Native(c)] + rest.0, rest.1)
      case Skip =>
        Dispatch(reg, items[1..], fdOf, decide, h)
  }

  /** The same pass with the table read once, before any callback runs. */
  function StaticPass<I, N>(reg: Registry, items: seq<I>, fdOf: I -> nat,
                            decide: (FdEntry, I) -> Step<N>): (t: seq<Action<N>>)
    requires InRange(reg, items, fdOf)
    ensures |t| <= |items|
    decreases |items|
  {
    if |items| == 0 then []
    else
      var fd := fdOf(items[0]);
      var e := reg[fd];
      var rest := StaticPass(reg, items[1..], fdOf, decide);
      match decide(e, items[0])
      case Invoke(rev) => [Call(Invocation(fd, rev, e.callback, e.cbArg))] + rest
      case Emit(c) => [Native(c)] + rest
      case Skip => rest
  }

  /** The first item's share of the trace and the table the rest of the pass starts from. */
  function Head<I, N>(reg: Registry, it: I, fdOf: I -> nat, decide: (FdEntry, I) -> Step<N>,
                      h: Handler): (r: (seq<Action<N>>, Registry))
    requires SizePreserving(h)
    requires fdOf(it) < |reg|
    ensures |r.1| == |reg|
  {
    var fd := fdOf(it);
    var e := reg[fd];
    match decide(e, it)
    case Invoke(rev) =>
      var inv := Invocation(fd, rev, e.callback, e.cbArg);
      ([Call(inv)], h(reg, inv))
    case Emit(c) => ([Native(c)], reg)
    case Skip => ([], reg)
  }

  /** A pass is its first item's share followed by the pass over the rest. */
  lemma DispatchUnfold<I, N>(reg: Registry, items: seq<I>, fdOf: I -> nat,
                             decide: (FdEntry, I) -> Step<N>, h: Handler)
    requires SizePreserving(h)
    requires InRange(reg, items, fdOf)
    requires |items| > 0
    ensures var hd := Head(reg, items[0], fdOf, decide, h);
            InRange(hd.1, items[1..], fdOf) &&
            Dispatch(reg, items, fdOf, decide, h)
              == (hd.0 + Dispatch(hd.1, items[1..], fdOf, decide, h).0,
                  Dispatch(hd.1, items[1..], fdOf, decide, h).1)
  {
    var fd := fdOf(items[0]);
    var e := reg[fd];
    match decide(e, items[0])
    case Invoke(rev) =>
    case Emit(c) =>
    case Skip =>
      var rest := Dispatch(reg, items[1..], fdOf, decide, h);
      assert [] + rest.0 == rest.0;
  }

  /** Every callback invocation comes from an item whose decision was Invoke, so any
      property of the decisions carries over to the invocations. */
  lemma {:induction false} DispatchCallsSatisfy<I, N>(reg: Registry, items: seq<I>, fdOf: I -> nat,
                                                    decide: (FdEntry, I) -> Step<N>, h: Handler,
                                                    P: (nat, nat) -> bool)
    requires SizePreserving(h)
    requires InRange(reg, items, fdOf)
    requires forall e: FdEntry, k :: 0 <= k < |items| && decide(e, items[k]).Invoke? ==>
               P(fdOf(items[k]), decide(e, items[k]).revents)
    ensures var t := Dispatch(reg, items, fdOf, decide, h).0;
            forall k :: 0 <= k < |t| && t[k].Call? ==> P(t[k].inv.fd, t[k].inv.revents)
    decreases |items|
  {
    if |items| > 0 {
      var hd := Head(reg, items[0], fdOf, decide, h);
      DispatchUnfold(reg, items, fdOf, decide, h);
      var tail := items[1..];
      forall e': FdEntry, k | 0 <= k < |tail| && decide(e', tail[k]).Invoke?
        ensures P(fdOf(tail[k]), decide(e', tail[k]).revents)
      {
        assert tail[k] == items[k + 1];
      }
      DispatchCallsSatisfy(hd.1, tail, fdOf, decide, h, P);
      var rest := Dispatch(hd.1, tail, fdOf, decide, h).0;
      var t := hd.0 + rest;
      forall k | 0 <= k < |t| && t[k].Call?
        ensures P(t[k].inv.fd, t[k].inv.revents)
      {
        if k >= |hd.0| {
          assert t[k] == rest[k - |hd.0|];
        }
      }
    }
  }

  /** Every native call in the trace comes from an item whose decision was Emit. */
  lemma {:induction false} DispatchNativesSatisfy<I, N>(reg: Registry, items: seq<I>, fdOf: I -> nat,
                                                      decide: (FdEntry, I) -> Step<N>, h: Handler,
                                                      Q: N -> bool)
    requires SizePreserving(h)
    requires InRange(reg, items, fdOf)
    requires forall e: FdEntry, k :: 0 <= k < |items| && decide(e, items[k]).Emit? ==>
               Q(decide(e, items[k]).call)
    ensures var t := Dispatch(reg, items, fdOf, decide, h).0;
            forall k :: 0 <= k < |t| && t[k].Native? ==> Q(t[k].call)
    decreases |items|
  {
    if |items| > 0 {
      var hd := Head(reg, items[0], fdOf, decide, h);
      DispatchUnfold(reg, items, fdOf, decide, h);
      var tail := items[1..];
      forall e': FdEntry, k | 0 <= k < |tail| && decide(e', tail[k]).Emit?
        ensures Q(decide(e', tail[k]).call)
      {
        assert tail[k] == items[k + 1];
      }
      DispatchNativesSatisfy(hd.1, tail, fdOf, decide, h, Q);
      var rest := Dispatch(hd.1, tail, fdOf, decide, h).0;
      var t := hd.0 + rest;
      forall k | 0 <= k < |t| && t[k].Native?
        ensures Q(t[k].call)
      {
        if k >= |hd.0| {
          assert t[k] == rest[k - |hd.0|];
        }
      }
    }
  }

  /** If a decision is Invoke only for descriptors the loop owns at the visit, and no
      callback hands a descriptor to the loop, then a descriptor the loop does not own
      when the pass starts is never called back, even if an earlier callback released it. */
  lemma {:induction false} DispatchSkipsUnowned<I, N>(reg: Registry, items: seq<I>, fdOf: I -> nat,
                                                    decide: (FdEntry, I) -> Step<N>, h: Handler,
                                                    lid: nat, j: nat)
    requires SizePreserving(h)
    requires InRange(reg, items, fdOf)
    requires forall e: FdEntry, it: I :: decide(e, it).Invoke? ==> e.loopId == lid
    requires NeverClaims(h, lid)
    requires j < |reg| && reg[j].loopId != lid
    ensures var t := Dispatch(reg, items, fdOf, decide, h).0;
            forall k :: 0 <= k < |t| && t[k].Call? ==> t[k].inv.fd != j
    decreases |items|
  {
    if |items| > 0 {
      var hd := Head(reg, items[0], fdOf, decide, h);
      DispatchUnfold(reg, items, fdOf, decide, h);
      var fd := fdOf(items[0]);
      var e := reg[fd];
      if decide(e, items[0]).Invoke? {
        var inv := Invocation(fd, decide(e, items[0]).revents, e.callback, e.cbArg);
        assert hd.1 == h(reg, inv);
        assert hd.1[j].loopId != lid;
      }
      DispatchSkipsUnowned(hd.1, items[1..], fdOf, decide, h, lid, j);
      var rest := Dispatch(hd.1, items[1..], fdOf, decide, h).0;
      var t := hd.0 + rest;
      forall k | 0 <= k < |t| && t[k].Call?
        ensures t[k].inv.fd != j
      {
        if k >= |hd.0| {
          assert t[k] == rest[k - |hd.0|];
        }
      }
    }
  }

  /** Invocations follow the order of the items: when the items' descriptors strictly
      increase, so do the invoked descriptors. */
  lemma {:induction false} DispatchAscending<I, N>(reg: Registry, items: seq<I>, fdOf: I -> nat,
                                                 decide: (FdEntry, I) -> Step<N>, h: Handler)
    requires SizePreserving(h)
    requires InRange(reg, items, fdOf)
    requires forall a, b :: 0 <= a < b < |items| ==> fdOf(items[a]) < fdOf(items[b])
    ensures var t := Dispatch(reg, items, fdOf, decide, h).0;
            forall a, b :: 0 <= a < b < |t| && t[a].Call? && t[b].Call? ==> t[a].inv.fd < t[b].inv.fd
    decreases |items|
  {
    if |items| > 0 {
      var hd := Head(reg, items[0], fdOf, decide, h);
      DispatchUnfold(reg, items, fdOf, decide, h);
      var fd := fdOf(items[0]);
      var tail := items[1..];
      var P := (f: nat, rev: nat) => fd < f;
      forall e': FdEntry, k | 0 <= k < |tail| && decide(e', tail[k]).Invoke?
        ensures P(fdOf(tail[k]), decide(e', tail[k]).revents)
      {
        assert tail[k] == items[k + 1];
      }
      assert forall a, b :: 0 <= a < b < |tail| ==> fdOf(tail[a]) < fdOf(tail[b]) by {
        forall a, b | 0 <= a < b < |tail| ensures fdOf(tail[a]) < fdOf(tail[b]) {
          assert tail[a] == items[a + 1] && tail[b] == items[b + 1];
        }
      }
      DispatchAscending(hd.1, tail, fdOf, decide, h);
      DispatchCallsSatisfy(hd.1, tail, fdOf, decide, h, P);
      var rest := Dispatch(hd.1, tail, fdOf, decide, h).0;
      var t := hd.0 + rest;
      forall a, b | 0 <= a < b < |t| && t[a].Call? && t[b].Call?
        ensures t[a].inv.fd < t[b].inv.fd
      {
        assert t[b] == rest[b - |hd.0|];
        if a >= |hd.0| {
          assert t[a] == rest[a - |hd.0|];
        } else {
          assert t[a].inv.fd == fd;
        }
      }
    }
  }

  /** A pass over `a + b` is the pass over `a` followed by the pass over `b`, started
      from the table the first pass leaves behind. */
  lemma {:induction false} DispatchSplit<I, N>(reg: Registry, a: seq<I>, b: seq<I>, fdOf: I -> nat,
                                             decide: (FdEntry, I) -> Step<N>, h: Handler)
    requires SizePreserving(h)
    requires InRange(reg, a + b, fdOf)
    ensures InRange(reg, a, fdOf)
    ensures var mid := Dispatch(reg, a, fdOf, decide, h);
            InRange(mid.1, b, fdOf) &&
            Dispatch(reg, a + b, fdOf, decide, h)
              == (mid.0 + Dispatch(mid.1, b, fdOf, decide, h).0, Dispatch(mid.1, b, fdOf, decide, h).1)
    decreases |a|
  {
    assert InRange(reg, a, fdOf) by {
      forall k | 0 <= k < |a| ensures fdOf(a[k]) < |reg| {
        assert a[k] == (a + b)[k];
      }
    }
    if |a| == 0 {
      assert a + b == b;
      var last := Dispatch(reg, b, fdOf, decide, h);
      assert [] + last.0 == last.0;
    } else {
      var hd := Head(reg, a[0], fdOf, decide, h);
      assert (a + b)[0] == a[0];
      assert (a + b)[1..] == a[1..] + b;
      DispatchUnfold(reg, a + b, fdOf, decide, h);
      DispatchUnfold(reg, a, fdOf, decide, h);
      DispatchSplit(hd.1, a[1..], b, fdOf, decide, h);
      var mid' := Dispatch(hd.1, a[1..], fdOf, decide, h);
      var last := Dispatch(mid'.1, b, fdOf, decide, h);
      assert hd.0 + (mid'.0 + last.0) == (hd.0 + mid'.0) + last.0;
    }
  }

  /** A descriptor that the loop no longer owns once the callbacks of the items in `a` have
      run is not called back by the rest of the pass: ownership is checked at each visit. */
  lemma DispatchSkipsReleased<I, N>(reg: Registry, a: seq<I>, b: seq<I>, fdOf: I -> nat,
                                    decide: (FdEntry, I) -> Step<N>, h: Handler, lid: nat, j: nat)
    requires SizePreserving(h)
    requires InRange(reg, a + b, fdOf)
    requires forall e: FdEntry, it: I :: decide(e, it).Invoke? ==> e.loopId == lid
    requires NeverClaims(h, lid)
    requires InRange(reg, a, fdOf)
    requires j < |reg| && Dispatch(reg, a, fdOf, decide, h).1[j].loopId != lid
    ensures var n := |Dispatch(reg, a, fdOf, decide, h).0|;
            var t := Dispatch(reg, a + b, fdOf, decide, h).0;
            forall k :: n <= k < |t| && t[k].Call? ==> t[k].inv.fd != j
  {
    DispatchSplit(reg, a, b, fdOf, decide, h);
    var mid := Dispatch(reg, a, fdOf, decide, h);
    DispatchSkipsUnowned(mid.1, b, fdOf, decide, h, lid, j);
    var rest := Dispatch(mid.1, b, fdOf, decide, h).0;
    var t := Dispatch(reg, a + b, fdOf, decide, h).0;
    forall k | |mid.0| <= k < |t| && t[k].Call?
      ensures t[k].inv.fd != j
    {
      assert t[k] == rest[k - |mid.0|];
    }
  }

  /** With callbacks that leave the table alone, the pass is the static one over the
      table as it was at setup. */
  lemma {:induction false} DispatchInert<I, N>(reg: Registry, items: seq<I>, fdOf: I -> nat,
                                             decide: (FdEntry, I) -> Step<N>, h: Handler)
    requires SizePreserving(h) && Inert(h)
    requires InRange(reg, items, fdOf)
    ensures Dispatch(reg, items, fdOf, decide, h) == (StaticPass(reg, items, fdOf, decide), reg)
    decreases |items|
  {
    if |items| > 0 {
      var hd := Head(reg, items[0], fdOf, decide, h);
      DispatchUnfold(reg, items, fdOf, decide, h);
      var fd := fdOf(items[0]);
      var e := reg[fd];
      if decide(e, items[0]).Invoke? {
        var inv := Invocation(fd, decide(e, items[0]).revents, e.callback, e.cbArg);
        assert hd.1 == h(reg, inv) == reg;
      }
      DispatchInert(reg, items[1..], fdOf, decide, h);
    }
  }

  /** Every item whose decision is Invoke has its callback in the static pass, with the
      decision's revents and the entry's callback and argument. */
  lemma {:induction false} StaticPassCallsEvery<I, N>(reg: Registry, items: seq<I>, fdOf: I -> nat,
                                                    decide: (FdEntry, I) -> Step<N>)
    requires InRange(reg, items, fdOf)
    ensures forall k :: 0 <= k < |items| && decide(reg[fdOf(items[k])], items[k]).Invoke? ==>
              var e := reg[fdOf(items[k])];
              Call(Invocation(fdOf(items[k]), decide(e, items[k]).revents, e.callback, e.cbArg))
                in StaticPass(reg, items, fdOf, decide)
    decreases |items|
  {
    if |items| > 0 {
      var tail := items[1..];
      StaticPassCallsEvery(reg, tail, fdOf, decide);
      var rest := StaticPass(reg, tail, fdOf, decide);
      var t := StaticPass(reg, items, fdOf, decide);
      assert forall c :: c in rest ==> c in t;
      forall k | 1 <= k < |items|
        ensures items[k] == tail[k - 1]
      {
      }
    }
  }
}
