/**
 * A model of the per-thread destructor registry behind `__cxa_thread_atexit`:
 * the intrusive `DtorList`, push-front registration, the drain loop
 * `run_dtors`, and the one-time creation of the thread-local key.
 *
 * Callbacks are opaque: invoking one is recorded as an `Invoked` event and has
 * no other effect.  `malloc` is allocation of a fresh `DtorList` that joins the
 * ghost set `live`; `free` removes the node from `live` and records a `Freed`
 * event.
 */
module CxaThreadAtexit {

  /** Address of a destructor (a `void (*)(void*)`); its body is not modelled. */
  type Dtor = nat

  /** An opaque `void*`: the object handed to a destructor, or the ignored `dso_symbol`. */
  type Ptr = nat

  /** Identity of a thread; each thread has its own value in the thread-local slot. */
  type Tid = nat

  /** One pending destructor call `dtor(obj)`. */
  datatype Call = Call(dtor: Dtor, obj: Ptr)

  /** What the drain loop does, in order: run a destructor, or release a node. */
  datatype Event = Invoked(call: Call) | Freed(node: DtorList)

  /** The node type `DtorList`: a `(dtor, obj)` pair and the link to the next older node. */
  class DtorList {
    var dtor: Dtor
    var obj: Ptr
    var next: DtorList?

    /** This node followed by every node reachable through `next`. */
    ghost var spine: seq<DtorList>
    /** The `(dtor, obj)` pair of each node of `spine`, head first. */
    ghost var entries: seq<Call>

    /** `spine` is the finite, acyclic chain of `next` links and `entries` its pairs. */
    ghost predicate Valid()
      reads this, spine
      decreases |spine|
    {
      && |spine| == |entries| > 0
      && spine[0] == this
      && entries[0] == Call(dtor, obj)
      && (if next == null then |spine| == 1
          else
            && |spine| > 1
            && spine[1] == next
            && next.spine == spine[1..]
            && next.entries == entries[1..]
            && this !in next.spine
            && next.Valid())
    }

    /** A freshly allocated node whose fields are written as `__cxa_thread_atexit_impl` does. */
    constructor (dtor: Dtor, obj: Ptr, next: DtorList?)
      requires next != null ==> next.Valid()
      ensures Valid()
      ensures this.dtor == dtor && this.obj == obj && this.next == next
      ensures spine == [this] + Spine(next)
      ensures entries == [Call(dtor, obj)] + Entries(next)
    {
      this.dtor := dtor;
      this.obj := obj;
      this.next := next;
      new;
      spine := [this] + Spine(next);
      entries := [Call(dtor, obj)] + Entries(next);
    }
  }

  /** The nodes of the list starting at `h`; a null pointer is the empty list. */
  ghost function Spine(h: DtorList?): seq<DtorList>
    reads h
  {
    if h == null then [] else h.spine
  }

  /** The `(dtor, obj)` pairs of the list starting at `h`, head first. */
  ghost function Entries(h: DtorList?): seq<Call>
    reads h
  {
    if h == null then [] else h.entries
  }

  /** The set of nodes on `s`. */
  ghost function Nodes(s: seq<DtorList>): set<DtorList>
    decreases |s|
  {
    if |s| == 0 then {} else Nodes(s[..|s| - 1]) + {s[|s| - 1]}
  }

  /** A node is in `Nodes(s)` exactly when it occurs on `s`. */
  lemma {:induction false} NodesHasExactlyTheNodes(s: seq<DtorList>, n: DtorList)
    ensures n in Nodes(s) <==> n in s
    decreases |s|
  {
    if |s| > 0 {
      NodesHasExactlyTheNodes(s[..|s| - 1], n);
      assert s == s[..|s| - 1] + [s[|s| - 1]];
    }
  }

  /** No node occurs twice on a valid list, so a walk along `next` never revisits one. */
  lemma {:induction false} SpineDistinct(h: DtorList)
    requires h.Valid()
    ensures forall i, j :: 0 <= i < j < |h.spine| ==> h.spine[i] != h.spine[j]
    decreases |h.spine|
  {
    if h.next != null {
      SpineDistinct(h.next);
      forall i, j | 0 <= i < j < |h.spine|
        ensures h.spine[i] != h.spine[j]
      {
        assert h.spine[j] == h.next.spine[j - 1];
        if i > 0 {
          assert h.spine[i] == h.next.spine[i - 1];
        }
      }
    }
  }

  // ---------------------------------------------------------------------------
  // What `run_dtors` does to a list, as a value

  /**
   * The events of draining the nodes `nodes` carrying the pairs `calls`: for
   * each node in head-to-tail order, its destructor runs and then it is freed.
   */
  function DrainEvents(nodes: seq<DtorList>, calls: seq<Call>): (r: seq<Event>)
    requires |nodes| == |calls|
    ensures |r| == 2 * |nodes|
    decreases |nodes|
  {
    if |nodes| == 0 then []
    else
      DrainEvents(nodes[..|nodes| - 1], calls[..|calls| - 1])
        + [Invoked(calls[|calls| - 1]), Freed(nodes[|nodes| - 1])]
  }

  /** The destructor calls among `events`, in the order they happened. */
  function Invocations(events: seq<Event>): (r: seq<Call>)
    ensures |r| <= |events|
    decreases |events|
  {
    if |events| == 0 then []
    else
      var rest := Invocations(events[..|events| - 1]);
      match events[|events| - 1]
      case Invoked(c) => rest + [c]
      case Freed(_) => rest
  }

  /**
   * Node `k` of the drained list has its destructor invoked at step `2k` and is
   * freed at step `2k + 1`: head-to-tail order, and each node is released only
   * after its own destructor ran.
   */
  lemma {:induction false} DrainEventsAt(nodes: seq<DtorList>, calls: seq<Call>, k: nat)
    requires |nodes| == |calls| && k < |nodes|
    ensures DrainEvents(nodes, calls)[2 * k] == Invoked(calls[k])
    ensures DrainEvents(nodes, calls)[2 * k + 1] == Freed(nodes[k])
    decreases |nodes|
  {
    var n := |nodes| - 1;
    if k < n {
      DrainEventsAt(nodes[..n], calls[..n], k);
    }
  }

  /**
   * The links of a valid list, position by position: node `k` carries pair `k`,
   * and its `next` is node `k + 1`, or null after the last node.
   */
  lemma {:induction false} ListLinkAt(h: DtorList, k: nat)
    requires h.Valid() && k < |h.spine|
    ensures Call(h.spine[k].dtor, h.spine[k].obj) == h.entries[k]
    ensures h.spine[k].next == (if k + 1 < |h.spine| then h.spine[k + 1] else null)
    decreases k
  {
    if k > 0 {
      ListLinkAt(h.next, k - 1);
      assert h.spine[k] == h.next.spine[k - 1] && h.entries[k] == h.next.entries[k - 1];
      assert k + 1 < |h.spine| ==> h.spine[k + 1] == h.next.spine[k];
    }
  }

  /** Draining one more node appends its destructor call and its release. */
  lemma DrainStep(nodes: seq<DtorList>, calls: seq<Call>, i: nat)
    requires |nodes| == |calls| && i < |nodes|
    ensures DrainEvents(nodes[..i + 1], calls[..i + 1])
              == DrainEvents(nodes[..i], calls[..i]) + [Invoked(calls[i]), Freed(nodes[i])]
    ensures Nodes(nodes[..i + 1]) == Nodes(nodes[..i]) + {nodes[i]}
  {
    assert nodes[..i + 1][..i] == nodes[..i] && calls[..i + 1][..i] == calls[..i];
  }

  /** The call trace of a drain is exactly the list's `(dtor, obj)` pairs, head first. */
  lemma {:induction false} InvocationsOfDrain(nodes: seq<DtorList>, calls: seq<Call>)
    requires |nodes| == |calls|
    ensures Invocations(DrainEvents(nodes, calls)) == calls
    decreases |nodes|
  {
    if |nodes| > 0 {
      var n := |nodes| - 1;
      var prefix := DrainEvents(nodes[..n], calls[..n]);
      var all := DrainEvents(nodes, calls);
      assert all == prefix + [Invoked(calls[n]), Freed(nodes[n])];
      assert all[..|all| - 1] == prefix + [Invoked(calls[n])];
      assert (prefix + [Invoked(calls[n])])[..|prefix|] == prefix;
      InvocationsOfDrain(nodes[..n], calls[..n]);
      assert calls[..n] + [calls[n]] == calls;
    }
  }

  /**
   * On a list without repeated nodes, every node is freed exactly once: node
   * `k` at step `2k + 1` and at no other step, and nothing else is freed.
   */
  lemma {:induction false} DrainFreesEachOnce(nodes: seq<DtorList>, calls: seq<Call>)
    requires |nodes| == |calls|
    requires forall i, j :: 0 <= i < j < |nodes| ==> nodes[i] != nodes[j]
    ensures forall k, j :: 0 <= k < |nodes| && 0 <= j < 2 * |nodes| ==>
              (DrainEvents(nodes, calls)[j] == Freed(nodes[k]) <==> j == 2 * k + 1)
    ensures forall j :: 0 <= j < 2 * |nodes| && DrainEvents(nodes, calls)[j].Freed? ==>
              DrainEvents(nodes, calls)[j].node in nodes
  {
    var r := DrainEvents(nodes, calls);
    forall k, j | 0 <= k < |nodes| && 0 <= j < 2 * |nodes|
      ensures r[j] == Freed(nodes[k]) <==> j == 2 * k + 1
    {
      DrainEventsAt(nodes, calls, k);
      DrainEventsAt(nodes, calls, j / 2);
    }
    forall j | 0 <= j < 2 * |nodes| && r[j].Freed?
      ensures r[j].node in nodes
    {
      DrainEventsAt(nodes, calls, j / 2);
    }
  }

  // ---------------------------------------------------------------------------
  // Registration, as a value

  /**
   * The thread's list after registering `calls` in order on top of the list
   * `start`: every registration pushes its pair to the front.
   */
  function Registered(start: seq<Call>, calls: seq<Call>): seq<Call>
    decreases |calls|
  {
    if |calls| == 0 then start
    else [calls[|calls| - 1]] + Registered(start, calls[..|calls| - 1])
  }

  /**
   * Registration is LIFO: position `k` of the list holds the `k`-th most recent
   * registration, and the list as it was before sits unchanged behind them.
   */
  lemma {:induction false} RegisteredAt(start: seq<Call>, calls: seq<Call>)
    ensures |Registered(start, calls)| == |calls| + |start|
    ensures forall k :: 0 <= k < |calls| ==> Registered(start, calls)[k] == calls[|calls| - 1 - k]
    ensures Registered(start, calls)[|calls|..] == start
    decreases |calls|
  {
    if |calls| > 0 {
      var n := |calls| - 1;
      RegisteredAt(start, calls[..n]);
      var r := Registered(start, calls);
      assert r == [calls[n]] + Registered(start, calls[..n]);
      forall k | 0 <= k < |calls|
        ensures r[k] == calls[n - k]
      {
        if k > 0 {
          assert r[k] == Registered(start, calls[..n])[k - 1];
        }
      }
    }
  }

  // ---------------------------------------------------------------------------
  // The one-time key, as a value

  /** Whether the key exists, and how many times `pthread_key_create` has been called. */
  datatype KeyState = KeyState(created: bool, creations: nat)

  /** One sequential call of `ensure_key`. */
  function EnsureKeyStep(s: KeyState): (r: KeyState)
    ensures r.created
    ensures s.created ==> r == s
    ensures !s.created ==> r.creations == s.creations + 1
  {
    if s.created then s else KeyState(true, s.creations + 1)
  }

  /** `n` sequential calls of `ensure_key`. */
  function EnsureKeyRepeat(s: KeyState, n: nat): KeyState
    decreases n
  {
    if n == 0 then s else EnsureKeyRepeat(EnsureKeyStep(s), n - 1)
  }

  /**
   * `ensure_key` is idempotent: any positive number of calls has the effect of
   * one, so the key is created at most once.
   */
  lemma {:induction false} EnsureKeyIdempotent(s: KeyState, n: nat)
    requires n > 0
    ensures EnsureKeyRepeat(s, n) == EnsureKeyStep(s)
    ensures EnsureKeyRepeat(s, n).created
    ensures EnsureKeyRepeat(s, n).creations <= s.creations + 1
    decreases n
  {
    if n > 1 {
      EnsureKeyIdempotent(EnsureKeyStep(s), n - 1);
    }
  }

  // ---------------------------------------------------------------------------
  // The registry

  /**
   * The process-wide state: the `key_created` flag, the number of times the key
   * was created, each thread's value in the thread-local slot (its list head),
   * the nodes allocated and not yet freed, and the events of every drain so far.
   */
  class Registry {
    var keyCreated: bool
    ghost var keyCreations: nat
    var slots: map<Tid, DtorList?>
    ghost var live: set<DtorList>
    ghost var events: seq<Event>

    /**
     * The key is created once if at all, every thread's list is valid and
     * allocated, and no node is on the lists of two threads.
     */
    ghost predicate Valid()
      reads this, live
    {
      && keyCreations == (if keyCreated then 1 else 0)
      && SlotsValid(slots, live)
    }

    /** `h` is null or a valid list whose nodes are all allocated and not yet freed. */
    ghost predicate Owns(h: DtorList?)
      reads this, live
    {
      OwnedIn(h, live)
    }

    /** `h` is null or a valid list whose nodes are all in `l`. */
    static ghost predicate OwnedIn(h: DtorList?, l: set<DtorList>)
      reads l
    {
      h != null ==>
        && h in l
        && (forall j :: 0 <= j < |h.spine| ==> h.spine[j] in l)
        && h.Valid()
    }

    /** The lists from `h1` and from `h2` share no node. */
    static ghost predicate Disjoint(h1: DtorList?, h2: DtorList?)
      reads h1, h2
    {
      h1 != null && h2 != null ==>
        forall j, k :: 0 <= j < |h1.spine| && 0 <= k < |h2.spine| ==> h1.spine[j] != h2.spine[k]
    }

    /** Every thread's list is valid and in `l`, and the lists of two threads share no node. */
    static ghost predicate SlotsValid(s: map<Tid, DtorList?>, l: set<DtorList>)
      reads l
    {
      && (forall t :: t in s ==> OwnedIn(s[t], l))
      && (forall t, u :: t in s && u in s && t != u ==> Disjoint(s[t], s[u]))
    }

    /**
     * Storing as thread `tid`'s head a node that is not in `l` and that points
     * to the thread's old head keeps every list valid and the threads' lists
     * apart.
     */
    static lemma PushKeepsSlotsValid(s: map<Tid, DtorList?>, l: set<DtorList>, tid: Tid, head: DtorList)
      requires SlotsValid(s, l) && head !in l
      requires head.Valid() && head.next == (if tid in s then s[tid] else null)
      requires head.spine == [head] + Spine(head.next)
      ensures SlotsValid(s[tid := head], l + {head})
    {

    }

    /** The registry at program start: no key yet, every slot empty. */
    constructor ()
      ensures Valid()
      ensures !keyCreated && keyCreations == 0
      ensures slots == map[] && live == {} && events == []
    {
      keyCreated := false;
      keyCreations := 0;
      slots := map[];
      live := {};
      events := [];
    }

    /** `pthread_getspecific(key)` on thread `tid`: null until the thread stores a value. */
    function GetSpecific(tid: Tid): DtorList?
      reads this
    {
      if tid in slots then slots[tid] else null
    }

    /** The sequential state of the key, for `EnsureKeyStep`. */
    ghost function Key(): KeyState
      reads this
    {
      KeyState(keyCreated, keyCreations)
    }

    /**
     * `ensure_key`: if the flag is clear, create the key (bound to `run_dtors`)
     * and set the flag.  The lock and the second test are the double-checked
     * locking of the source; run sequentially the second test always passes.
     */
    method EnsureKey()
      requires Valid()
      modifies this
      ensures Valid()
      ensures Key() == EnsureKeyStep(old(Key()))
      ensures slots == old(slots) && live == old(live) && events == old(events)
    {
      if !keyCreated {
        // take the lock
        if !keyCreated {
          keyCreations := keyCreations + 1;  // create the key, bound to the drain
          keyCreated := true;
        }
        // release the lock
      }
    }

    /**
     * `__cxa_thread_atexit_impl(dtor, obj, dso_symbol)` called on thread `tid`:
     * push a new node for `(dtor, obj)` in front of the thread's list.  It
     * always returns 0, and `dsoSymbol` has no effect.
     */
    method CxaThreadAtexitImpl(tid: Tid, dtor: Dtor, obj: Ptr, dsoSymbol: Ptr) returns (r: int)
      requires Valid()
      modifies this
      ensures Valid()
      ensures r == 0
      ensures Key() == EnsureKeyStep(old(Key()))
      ensures GetSpecific(tid) != null && fresh(GetSpecific(tid))
      ensures GetSpecific(tid).next == old(GetSpecific(tid))
      ensures Entries(GetSpecific(tid)) == [Call(dtor, obj)] + old(Entries(GetSpecific(tid)))
      ensures Spine(GetSpecific(tid)) == [GetSpecific(tid)] + old(Spine(GetSpecific(tid)))
      ensures forall t :: t != tid ==> GetSpecific(t) == old(GetSpecific(t))
      ensures live == old(live) + {GetSpecific(tid)}
      ensures events == old(events)
    {
      EnsureKey();
      var oldHead := GetSpecific(tid);
      var head := new DtorList(dtor, obj, oldHead);  // malloc never fails here
      PushKeepsSlotsValid(slots, live, tid, head);
      live, slots := live + {head}, slots[tid := head];  // store the new head in the thread's slot
      r := 0;
    }

    /**
     * `run_dtors(arg)`: walk the list from `arg`; for each node read `next`,
     * run the node's destructor on its object, then free the node.  A null
     * `arg` does nothing.
     */
    method RunDtors(arg: DtorList?)
      requires Owns(arg)
      modifies this`events, this`live
      ensures events == old(events) + DrainEvents(Spine(arg), Entries(arg))
      ensures live == old(live) - Nodes(Spine(arg))
      ensures arg == null ==> events == old(events) && live == old(live)
    {
      ghost var nodes, calls := Spine(arg), Entries(arg);
      if arg != null {
        SpineDistinct(arg);
      }
      ghost var i := 0;
      var dtors := arg;
      while dtors != null
        invariant 0 <= i <= |nodes| == |calls|
        invariant arg != null ==> arg.Valid() && nodes == arg.spine && calls == arg.entries
        invariant dtors == (if i < |nodes| then nodes[i] else null)
        invariant forall j :: i <= j < |nodes| ==> nodes[j] in live
        invariant live == old(live) - Nodes(nodes[..i])
        invariant events == old(events) + DrainEvents(nodes[..i], calls[..i])
        decreases |nodes| - i
      {
        var head := dtors;
        ListLinkAt(arg, i);
        assert head in live;  // every node is read before it is freed
        dtors := head.next;
        ghost var before := events;
        events := events + [Invoked(Call(head.dtor, head.obj))];  // run the node's destructor
        live, events := live - {head}, events + [Freed(head)];    // release the node
        assert events == before + [Invoked(calls[i]), Freed(nodes[i])];
        DrainStep(nodes, calls, i);
        i := i + 1;
      }
      assert nodes[..i] == nodes && calls[..i] == calls;
    }

    /**
     * Registering `calls` in order on a thread whose slot is empty leaves the
     * pairs on its list in reverse order, each in a freshly allocated node of
     * its own that was not live before.
     */
    method RegisterEach(tid: Tid, calls: seq<Call>, dsoSymbol: Ptr)
      requires Valid() && GetSpecific(tid) == null
      modifies this
      ensures Valid() && events == old(events)
      ensures Owns(GetSpecific(tid))
      ensures Entries(GetSpecific(tid)) == Registered([], calls)
      ensures forall n :: n in live <==> n in old(live) || n in Spine(GetSpecific(tid))
      ensures forall n :: n in Spine(GetSpecific(tid)) ==> n !in old(live)
      ensures forall n :: n in Spine(GetSpecific(tid)) ==> fresh(n)
      ensures forall t :: t != tid ==> GetSpecific(t) == old(GetSpecific(t))
      ensures Key() == EnsureKeyRepeat(old(Key()), |calls|)
    {
      var i := 0;
      while i < |calls|
        invariant 0 <= i <= |calls|
        invariant Valid() && events == old(events)
        invariant Entries(GetSpecific(tid)) == Registered([], calls[..i])
        invariant forall n :: n in live <==> n in old(live) || n in Spine(GetSpecific(tid))
        invariant forall n :: n in Spine(GetSpecific(tid)) ==> n !in old(live)
        invariant forall n :: n in Spine(GetSpecific(tid)) ==> fresh(n)
        invariant forall t :: t != tid ==> GetSpecific(t) == old(GetSpecific(t))
        invariant Key() == if i == 0 then old(Key()) else EnsureKeyStep(old(Key()))
      {
        ghost var prev := Spine(GetSpecific(tid));
        var _ := CxaThreadAtexitImpl(tid, calls[i].dtor, calls[i].obj, dsoSymbol);
        assert Spine(GetSpecific(tid)) == [GetSpecific(tid)] + prev;
        assert calls[..i + 1][..i] == calls[..i];
        i := i + 1;
      }
      assert calls[..i] == calls;
      if |calls| > 0 {
        EnsureKeyIdempotent(old(Key()), |calls|);
      }
    }

    /**
     * Registering `calls` in order on a thread whose slot is empty and then
     * draining the thread's list runs the destructors in reverse registration
     * order, each exactly once, and releases every node it allocated.
     */
    method RegisterThenDrain(tid: Tid, calls: seq<Call>, dsoSymbol: Ptr)
      requires Valid() && GetSpecific(tid) == null
      modifies this
      ensures live == old(live)
      ensures |events| == |old(events)| + 2 * |calls|
      ensures |Invocations(events[|old(events)|..])| == |calls|
      ensures forall k :: 0 <= k < |calls| ==>
                Invocations(events[|old(events)|..])[k] == calls[|calls| - 1 - k]
      ensures forall t :: t != tid ==> GetSpecific(t) == old(GetSpecific(t))
      ensures Key() == EnsureKeyRepeat(old(Key()), |calls|)
    {
      ghost var e0, l0 := events, live;
      RegisterEach(tid, calls, dsoSymbol);
      var h := GetSpecific(tid);
      ghost var nodes, entries := Spine(h), Entries(h);
      RunDtors(h);
      assert events == e0 + DrainEvents(nodes, entries);
      assert events[|e0|..] == DrainEvents(nodes, entries);
      forall n | n in live + l0
        ensures n in live <==> n in l0
      {
        NodesHasExactlyTheNodes(nodes, n);
      }
      InvocationsOfDrain(nodes, entries);
      RegisteredAt([], calls);
    }
  }
}
