/** The in-process event bus: ordered synchronous handlers, asynchronous ones on a
    bounded pool. */
module EventBus {
  import opened StableSort
  import opened Options

  /** A registration; `name` stands for the handler function. */
  datatype Entry = Entry(order: int, isAsync: bool, name: string)

  /** How a handler was started. */
  datatype Call = Inline(entry: Entry) | Spawned(entry: Entry)

  predicate ByOrder(a: Entry, b: Entry) {
    a.order < b.order
  }

  lemma ByOrderIsStrictWeak()
    ensures StrictWeakOrder(ByOrder)
  {
  }

  function Only(es: seq<Entry>, isAsync: bool): seq<Entry> {
    if es == [] then []
    else
      var rest := Only(es[..|es| - 1], isAsync);
      if es[|es| - 1].isAsync == isAsync then rest + [es[|es| - 1]] else rest
  }

  /** `picked` is `es` at the positions `at`, which rise. */
  ghost predicate IsPicked(es: seq<Entry>, at: seq<nat>, picked: seq<Entry>) {
    && |at| == |picked| && (forall k :: 0 <= k < |at| ==> at[k] < |es| && picked[k] == es[at[k]])
    && (forall k, l :: 0 <= k < l < |at| ==> at[k] < at[l])
  }

  /** `Only` keeps exactly the entries of that kind, each once and in their order. */
  lemma {:induction false} OnlyIsPicked(es: seq<Entry>, isAsync: bool) returns (at: seq<nat>)
    ensures IsPicked(es, at, Only(es, isAsync))
    ensures forall i: nat :: i in at <==> i < |es| && es[i].isAsync == isAsync
  {
    at := [];
    if es != [] {
      var n := |es| - 1;
      var front := OnlyIsPicked(es[..n], isAsync);
      if es[n].isAsync == isAsync {
        at := front + [n];
        PickOneMore(es, front, Only(es[..n], isAsync));
      } else {
        at := front;
      }
      assert forall i: nat :: i < n ==> es[..n][i] == es[i];
    }
  }

  lemma PickOneMore(es: seq<Entry>, at: seq<nat>, picked: seq<Entry>)
    requires es != [] && IsPicked(es[..|es| - 1], at, picked)
    ensures IsPicked(es, at + [|es| - 1], picked + [es[|es| - 1]])
  {
  }

  function InlineCalls(es: seq<Entry>): seq<Call> {
    seq(|es|, i requires 0 <= i < |es| => Inline(es[i]))
  }

  /** The entries of a sequence of calls. */
  function Entries(calls: seq<Call>): seq<Entry> {
    seq(|calls|, i requires 0 <= i < |calls| => calls[i].entry)
  }

  /** The error of the first entry that has one. */
  function FirstError(es: seq<Entry>, outcome: Entry -> Option<string>): Option<string> {
    if es == [] then None
    else
      var earlier := FirstError(es[..|es| - 1], outcome);
      if earlier.Some? then earlier else outcome(es[|es| - 1])
  }

  /** Entry `i` fails with that error and none before it fails. */
  ghost predicate IsFirstFailure(es: seq<Entry>, outcome: Entry -> Option<string>, i: nat) {
    i < |es| && outcome(es[i]).Some? && forall j :: 0 <= j < i ==> outcome(es[j]).None?
  }

  lemma {:induction false} FirstFailure(es: seq<Entry>, outcome: Entry -> Option<string>) returns (i: nat)
    requires FirstError(es, outcome).Some?
    ensures IsFirstFailure(es, outcome, i) && outcome(es[i]) == FirstError(es, outcome)
  {
    var front := es[..|es| - 1];
    if FirstError(front, outcome).Some? {
      i := FirstFailure(front, outcome);
      assert es[i] == front[i] && forall j :: 0 <= j < i ==> es[j] == front[j];
    } else {
      i := |es| - 1;
      NoFailure(front, outcome);
      assert forall j :: 0 <= j < i ==> es[j] == front[j];
    }
  }

  lemma {:induction false} NoFailure(es: seq<Entry>, outcome: Entry -> Option<string>)
    requires FirstError(es, outcome).None?
    ensures forall j :: 0 <= j < |es| ==> outcome(es[j]).None?
  {
    if es != [] {
      var front := es[..|es| - 1];
      NoFailure(front, outcome);
      assert forall j :: 0 <= j < |front| ==> es[j] == front[j];
    }
  }

  /** FirstError is the error of the earliest failing entry, if any fails. */
  lemma FirstErrorIsEarliest(es: seq<Entry>, outcome: Entry -> Option<string>)
    ensures FirstError(es, outcome).None? <==> forall e :: e in es ==> outcome(e).None?
    ensures FirstError(es, outcome).Some? ==>
      exists i: nat :: IsFirstFailure(es, outcome, i) && outcome(es[i]) == FirstError(es, outcome)
  {
    if FirstError(es, outcome).None? {
      NoFailure(es, outcome);
    } else {
      var i := FirstFailure(es, outcome);
      assert es[i] in es;
    }
  }

  /** The entries of one order, as they stand. */
  function OfOrder(es: seq<Entry>, order: int): seq<Entry> {
    if es == [] then []
    else OfOrder(es[..|es| - 1], order) + if es[|es| - 1].order == order then [es[|es| - 1]] else []
  }

  lemma {:induction false} TiedIsOfOrder(es: seq<Entry>, x: Entry)
    ensures TiedWith(ByOrder, es, x) == OfOrder(es, x.order)
  {
    if es != [] {
      TiedIsOfOrder(es[..|es| - 1], x);
    }
  }

  lemma AppendIsSorted(all: seq<Entry>, list: seq<Entry>, h: Entry)
    requires list == Sort(ByOrder, all)
    ensures Sort(ByOrder, list + [h]) == Sort(ByOrder, all + [h])
  {
    ByOrderIsStrictWeak();
    SortAfterAppend(ByOrder, all, h);
  }

  method SortedByOrder(list: seq<Entry>) returns (sorted: seq<Entry>)
    ensures sorted == Sort(ByOrder, list)
  {
    ByOrderIsStrictWeak();
    var slice := new Entry[|list|](i requires 0 <= i < |list| => list[i]);
    assert slice[..] == list;
    SliceStable(slice, ByOrder);
    sorted := slice[..];
  }

  class Bus {
    var handlers: map<string, seq<Entry>>
    const maxAsync: nat
    var pooled: nat
    ghost var registered: map<string, seq<Entry>>
    ghost var calls: seq<Call>

    /** The pool never holds more goroutines than its capacity, and each type's
        handler list is its registrations stably sorted by order. */
    ghost predicate Valid()
      reads this
    {
      && 0 < maxAsync && pooled <= maxAsync
      && handlers.Keys == registered.Keys
      && forall t :: t in handlers ==> handlers[t] == Sort(ByOrder, registered[t])
    }

    constructor (limit: int)
      ensures Valid() && handlers == map[] && pooled == 0 && calls == []
      ensures maxAsync == if limit <= 0 then 16 else limit
    {
      maxAsync := if limit <= 0 then 16 else limit;
      handlers, pooled, registered, calls := map[], 0, map[], [];
    }

    ghost function Registered(t: string): seq<Entry>
      reads this
    {
      if t in registered then registered[t] else []
    }

    function Handlers(t: string): seq<Entry>
      reads this
    {
      if t in handlers then handlers[t] else []
    }

    /** Appends the handler and sorts the list again: the list is all registrations so
        far in order, those of equal order as they were registered. */
    method Register(t: string, h: Entry)
      requires Valid()
      modifies this`handlers, this`registered
      ensures Valid()
      ensures Registered(t) == old(Registered(t)) + [h]
      ensures IsStableSort(ByOrder, Registered(t), Handlers(t))
      ensures forall u :: u != t ==> Handlers(u) == old(Handlers(u))
    {
      assert Handlers(t) == Sort(ByOrder, Registered(t));
      AppendIsSorted(Registered(t), Handlers(t), h);
      var list := SortedByOrder(Handlers(t) + [h]);
      handlers, registered := handlers[t := list], registered[t := Registered(t) + [h]];
      HandlersAreStable(t);
    }

    /** Each type's handlers are its registrations in order, those of equal order as they
        were registered. */
    lemma HandlersAreStable(t: string)
      requires Valid()
      ensures IsStableSort(ByOrder, Registered(t), Handlers(t))
    {
      ByOrderIsStrictWeak();
      SortIsStable(ByOrder, Registered(t));
    }

    /** That is: every registration is in the list as often as it was made, lower orders
        come first, and those of one order are as they were registered. */
    lemma HandlersInOrder(t: string, order: int)
      requires Valid()
      ensures multiset(Handlers(t)) == multiset(Registered(t))
      ensures forall i, j :: 0 <= i < j < |Handlers(t)| ==> Handlers(t)[i].order <= Handlers(t)[j].order
      ensures OfOrder(Handlers(t), order) == OfOrder(Registered(t), order)
    {
      ByOrderIsStrictWeak();
      SortIsStable(ByOrder, Registered(t));
      var x := Entry(order, false, "");
      TiedIsOfOrder(Handlers(t), x);
      TiedIsOfOrder(Registered(t), x);
      forall i, j | 0 <= i < j < |Handlers(t)| ensures Handlers(t)[i].order <= Handlers(t)[j].order {
        assert !ByOrder(Handlers(t)[j], Handlers(t)[i]);
      }
    }

    /** Some of the pool's goroutines return. */
    method GoroutinesFinish()
      requires Valid()
      modifies this`pooled
      ensures Valid() && pooled <= old(pooled)
    {
      var left: nat :| left <= pooled;
      pooled := left;
    }

    /** Starts an asynchronous handler: on the pool if there is room, else inline. */
    method Dispatch(h: Entry)
      requires Valid()
      modifies this`pooled, this`calls
      ensures Valid()
      ensures calls == old(calls) + [Spawned(h)] || (calls == old(calls) + [Inline(h)] && pooled == maxAsync)
    {
      GoroutinesFinish();
      if pooled < maxAsync {
        pooled := pooled + 1;
        calls := calls + [Spawned(h)];
      } else {
        calls := calls + [Inline(h)];
      }
    }

    /** The first loop of Publish: every synchronous handler of the snapshot, in order,
        whether or not earlier ones fail. */
    method RunSync(snapshot: seq<Entry>, outcome: Entry -> Option<string>) returns (err: Option<string>)
      modifies this`calls
      ensures err == FirstError(Only(snapshot, false), outcome)
      ensures calls == old(calls) + InlineCalls(Only(snapshot, false))
    {
      err := None;
      for i := 0 to |snapshot|
        invariant err == FirstError(Only(snapshot[..i], false), outcome)
        invariant calls == old(calls) + InlineCalls(Only(snapshot[..i], false))
      {
        assert snapshot[..i + 1][..i] == snapshot[..i];
        var h := snapshot[i];
        if !h.isAsync {
          ghost var done := Only(snapshot[..i], false);
          assert (done + [h])[..|done|] == done;
          assert InlineCalls(done + [h]) == InlineCalls(done) + [Inline(h)];
          var e := outcome(h);
          calls := calls + [Inline(h)];
          if e.Some? && err.None? {
            err := e;
          }
        }
      }
      assert snapshot[..|snapshot|] == snapshot;
    }

    /** The second loop of Publish: every asynchronous handler of the snapshot. */
    method DispatchAsync(snapshot: seq<Entry>) returns (ghost made: seq<Call>)
      requires Valid()
      modifies this`pooled, this`calls
      ensures Valid()
      ensures calls == old(calls) + made && Entries(made) == Only(snapshot, true)
    {
      made := [];
      for i := 0 to |snapshot|
        invariant Valid()
        invariant calls == old(calls) + made && Entries(made) == Only(snapshot[..i], true)
      {
        assert snapshot[..i + 1][..i] == snapshot[..i];
        var h := snapshot[i];
        if h.isAsync {
          ghost var sofar := calls;
          Dispatch(h);
          ghost var c := calls[|sofar|];
          assert Entries(made + [c]) == Entries(made) + [h];
          made := made + [c];
        }
      }
      assert snapshot[..|snapshot|] == snapshot;
    }

    /** Runs every synchronous handler of the type once, in list order, whether or not
        earlier ones fail, and returns the first error; dispatches every asynchronous
        handler once, in list order, exactly when there was no error.  The pool never
        grows past its capacity. */
    method Publish(t: string, outcome: Entry -> Option<string>) returns (err: Option<string>, ghost made: seq<Call>)
      requires Valid()
      modifies this`pooled, this`calls
      ensures Valid() && pooled <= maxAsync
      ensures err == FirstError(Only(Handlers(t), false), outcome)
      ensures calls == old(calls) + InlineCalls(Only(Handlers(t), false)) + made
      ensures Entries(made) == if err.Some? then [] else Only(Handlers(t), true)
    {
      var snapshot := Handlers(t);
      made := [];
      err := RunSync(snapshot, outcome);
      if err.Some? {
        return;
      }
      made := DispatchAsync(snapshot);
    }
  }
}
