/**
 Cross-module event providers.

 Subscribers are kept in a flat multiset ordered by priority and, among equal priorities, by the
 address of the listener.  The finer comparison is what lets an unsubscription remove only the
 listener that asked for it.
 */
module Events {
  import opened FlatContainers

  /** A listener; the address identifies it and breaks ties between priorities. */
  datatype Listener = Listener(priority: nat, address: nat)

  datatype ModResult = Allow | Deny | PassThru

  /** Compares listeners by priority and then by address. */
  predicate ElementComp(lhs: Listener, rhs: Listener)
  {
    if lhs.priority < rhs.priority then true
    else if lhs.priority > rhs.priority then false
    else lhs.address < rhs.address
  }

  /** Compares listeners by priority alone. */
  predicate Comp(lhs: Listener, rhs: Listener)
  {
    lhs.priority < rhs.priority
  }

  function ByElement(): Order<Listener, Listener>
  {
    Order(l => l, (a, b) => ElementComp(a, b))
  }

  function ByPriority(): Order<Listener, Listener>
  {
    Order(l => l, (a, b) => Comp(a, b))
  }

  lemma OrdersAreStrictWeak()
    ensures StrictWeakOrder(ByElement().less) && StrictWeakOrder(ByPriority().less)
  {
  }

  /** Only a listener itself is equivalent to it. */
  lemma EquivalentIffSame(a: Listener, b: Listener)
    ensures Equivalent(ByElement(), a, b) <==> a == b
  {
  }

  datatype Request = Subscribe(l: Listener) | Unsubscribe(l: Listener)

  function AsOps(requests: seq<Request>): seq<Op<Listener, Listener>>
  {
    seq(|requests|, i requires 0 <= i < |requests| =>
      match requests[i] case Subscribe(l) => Insert(l) case Unsubscribe(l) => Erase(l))
  }

  /** How often a listener has subscribed since it last unsubscribed. */
  function Subscriptions(requests: seq<Request>, l: Listener): nat
  {
    if requests == [] then 0
    else
      var before := Subscriptions(requests[..|requests| - 1], l);
      match requests[|requests| - 1]
      case Subscribe(other) => if other == l then before + 1 else before
      case Unsubscribe(other) => if other == l then 0 else before
  }

  /** The subscriber list after a sequence of requests. */
  function Subscribers(requests: seq<Request>): (v: seq<Listener>)
    ensures Sorted(ByElement(), v)
  {
    OrdersAreStrictWeak();
    MultiAfter(ByElement(), AsOps(requests))
  }

  lemma {:induction false} DropIsRemoval(list: seq<Listener>, l: Listener, m: Listener)
    ensures multiset(Drop(ByElement(), list, l))[m] == if m == l then 0 else multiset(list)[m]
  {
    if list != [] {
      DropIsRemoval(list[1..], l, m);
      EquivalentIffSame(list[0], l);
      assert list == [list[0]] + list[1..];
    }
  }

  /** Each listener is in the list once for every subscription that has not been cancelled; others' requests do not matter. */
  lemma {:induction false} SubscribersCount(requests: seq<Request>, l: Listener)
    ensures multiset(MultiList(ByElement(), AsOps(requests)))[l] == Subscriptions(requests, l)
    decreases requests
  {
    hide ByElement, Drop;
    if requests != [] {
      var n := |requests| - 1;
      SubscribersCount(requests[..n], l);
      assert AsOps(requests)[..n] == AsOps(requests[..n]);
      var before := MultiList(ByElement(), AsOps(requests[..n]));
      match requests[n]
      case Subscribe(other) =>
      case Unsubscribe(other) =>
        DropIsRemoval(before, other, l);
    }
  }

  lemma SubscriberOccurrences(requests: seq<Request>, l: Listener)
    ensures multiset(Subscribers(requests))[l] == Subscriptions(requests, l)
  {
    OrdersAreStrictWeak();
    MultiHoldsInserted(ByElement(), AsOps(requests));
    SubscribersCount(requests, l);
  }

  /** What one more request does to the occurrences in the list. */
  lemma OccurrencesAfter(requests: seq<Request>, r: Request)
    ensures forall m :: multiset(Subscribers(requests + [r]))[m] ==
                        if r.Subscribe? then multiset(Subscribers(requests))[m] + (if m == r.l then 1 else 0)
                        else if m == r.l then 0 else multiset(Subscribers(requests))[m]
  {
    hide Subscribers;
    forall m | true
      ensures multiset(Subscribers(requests + [r]))[m] ==
              if r.Subscribe? then multiset(Subscribers(requests))[m] + (if m == r.l then 1 else 0)
              else if m == r.l then 0 else multiset(Subscribers(requests))[m]
    {
      SubscriberOccurrences(requests, m);
      SubscriberOccurrences(requests + [r], m);
      assert (requests + [r])[..|requests|] == requests;
    }
  }

  /** Compared by priority alone, unsubscribing one listener would take all others of that priority with it. */
  lemma PriorityAloneRemovesOthers(a: Listener, b: Listener)
    requires a.priority == b.priority
    ensures StrictWeakOrder(ByPriority().less) && Sorted(ByPriority(), [a, b])
    ensures EraseKey(ByPriority(), [a, b], a) == []
  {
    OrdersAreStrictWeak();
    EraseKeyClasses(ByPriority(), [a, b], a, a);
    ClassOfAll(ByPriority(), [a, b], a);
  }

  /** The live listeners of a list, in order. */
  function Live(dead: Listener -> bool, list: seq<Listener>): seq<Listener>
  {
    if list == [] then [] else (if dead(list[0]) then [] else [list[0]]) + Live(dead, list[1..])
  }

  lemma LiveNone(dead: Listener -> bool)
    ensures Live(dead, []) == []
  {
  }

  lemma {:induction false} LiveAppend(dead: Listener -> bool, list: seq<Listener>, l: Listener)
    ensures Live(dead, list + [l]) == Live(dead, list) + if dead(l) then [] else [l]
    decreases list
  {
    if list == [] {
      assert list + [l] == [l];
    } else {
      assert (list + [l])[1..] == list[1..] + [l];
      LiveAppend(dead, list[1..], l);
    }
  }

  /** The first answer in a list that does not pass. */
  function FirstAnswer(dead: Listener -> bool, answer: Listener -> ModResult, list: seq<Listener>): ModResult
    decreases list
  {
    if list == [] then PassThru
    else if !dead(list[0]) && answer(list[0]) != PassThru then answer(list[0])
    else FirstAnswer(dead, answer, list[1..])
  }

  lemma {:induction false} FirstAnswerPasses(dead: Listener -> bool, answer: Listener -> ModResult, list: seq<Listener>)
    ensures FirstAnswer(dead, answer, list) == PassThru <==> forall l :: l in list && !dead(l) ==> answer(l) == PassThru
    decreases list
  {
    if list != [] {
      FirstAnswerPasses(dead, answer, list[1..]);
      assert forall l :: l in list <==> l == list[0] || l in list[1..];
    }
  }

  /** In a sorted list the first answer comes from the least listener that does not pass. */
  lemma {:induction false} FirstAnswerIsLeast(dead: Listener -> bool, answer: Listener -> ModResult, list: seq<Listener>)
    returns (l: Listener)
    requires Sorted(ByElement(), list) && FirstAnswer(dead, answer, list) != PassThru
    ensures l in list && !dead(l) && answer(l) == FirstAnswer(dead, answer, list)
    ensures forall m :: m in list && !dead(m) && ElementComp(m, l) ==> answer(m) == PassThru
    decreases list
  {
    if !dead(list[0]) && answer(list[0]) != PassThru {
      l := list[0];
      forall m | m in list
        ensures !ElementComp(m, l)
      {
        var j :| 0 <= j < |list| && list[j] == m;
        assert j > 0 ==> !ByElement().less(ByElement().key(list[j]), ByElement().key(list[0]));
      }
    } else {
      assert Sorted(ByElement(), list[1..]);
      l := FirstAnswerIsLeast(dead, answer, list[1..]);
      assert forall m :: m in list <==> m == list[0] || m in list[1..];
    }
  }

  /** Lower priorities come first, and among equal ones lower addresses. */
  ghost predicate Before(a: Listener, b: Listener)
  {
    a.priority < b.priority || (a.priority == b.priority && a.address < b.address)
  }

  /** The finer comparator compares by priority and then by address, the coarser one by priority. */
  lemma ComesBefore()
    ensures forall a, b :: Before(a, b) <==> ElementComp(a, b)
    ensures forall a, b :: Before(a, b) && a.priority != b.priority <==> Comp(a, b)
  {
  }

  ghost predicate Ascending(list: seq<Listener>)
  {
    forall i, j :: 0 <= i < j < |list| ==> !Before(list[j], list[i])
  }

  lemma SortedIsAscending(list: seq<Listener>)
    requires Sorted(ByElement(), list)
    ensures Ascending(list)
  {
    forall i, j | 0 <= i < j < |list|
      ensures !Before(list[j], list[i])
    {
      assert !ByElement().less(ByElement().key(list[j]), ByElement().key(list[i]));
    }
  }

  lemma {:induction false} LiveCounts(dead: Listener -> bool, list: seq<Listener>, l: Listener)
    ensures multiset(Live(dead, list))[l] == if dead(l) then 0 else multiset(list)[l]
    decreases list
  {
    if list != [] {
      LiveCounts(dead, list[1..], l);
      assert list == [list[0]] + list[1..];
    }
  }

  lemma {:induction false} LiveAscending(dead: Listener -> bool, list: seq<Listener>)
    requires Ascending(list)
    ensures Ascending(Live(dead, list)) && forall l :: l in Live(dead, list) ==> l in list
    decreases list
  {
    if list != [] {
      var rest := Live(dead, list[1..]);
      assert Ascending(list[1..]);
      LiveAscending(dead, list[1..]);
      forall j | 0 <= j < |rest|
        ensures !Before(rest[j], list[0])
      {
        assert rest[j] in list[1..];
        var k :| 0 <= k < |list[1..]| && list[1..][k] == rest[j];
        assert list[k + 1] == rest[j];
      }
    }
  }

  class ModuleEventProvider {
    const subscribers: FlatBase<Listener, Listener>
    var callbacks: seq<Request>    // the calls of OnSubscribe and OnUnsubscribe so far
    ghost var requests: seq<Request>

    ghost predicate Valid()
      reads this, subscribers
    {
      && subscribers.order == ByElement()
      && subscribers.vect == Subscribers(requests)
      && subscribers.Valid()
      && callbacks == requests
    }

    constructor ()
      ensures Valid() && fresh(subscribers) && requests == []
    {
      OrdersAreStrictWeak();
      subscribers := new FlatBase(ByElement());
      callbacks, requests := [], [];
    }

    method Subscribe(l: Listener)
      requires Valid()
      modifies this, subscribers
      ensures Valid() && requests == old(requests) + [Request.Subscribe(l)] && callbacks == old(callbacks) + [Request.Subscribe(l)]
      ensures forall m :: multiset(subscribers.vect)[m] == old(multiset(subscribers.vect))[m] + if m == l then 1 else 0
    {
      ghost var after := requests + [Request.Subscribe(l)];
      assert AsOps(after)[..|requests|] == AsOps(requests) && AsOps(after)[|requests|] == Insert(l);
      var _ := subscribers.InsertEquivalent(l);
      callbacks := callbacks + [Request.Subscribe(l)];
      OccurrencesAfter(requests, Request.Subscribe(l));
      requests := after;
    }

    method Unsubscribe(l: Listener)
      requires Valid()
      modifies this, subscribers
      ensures Valid() && requests == old(requests) + [Request.Unsubscribe(l)] && callbacks == old(callbacks) + [Request.Unsubscribe(l)]
      ensures forall m :: multiset(subscribers.vect)[m] == if m == l then 0 else old(multiset(subscribers.vect))[m]
    {
      ghost var after := requests + [Request.Unsubscribe(l)];
      assert AsOps(after)[..|requests|] == AsOps(requests) && AsOps(after)[|requests|] == Erase(l);
      var _ := subscribers.Erase(l);
      callbacks := callbacks + [Request.Unsubscribe(l)];
      OccurrencesAfter(requests, Request.Unsubscribe(l));
      requests := after;
    }

    /** The listeners whose hook is run, in order. */
    method Call(providerDead: bool, dead: Listener -> bool) returns (called: seq<Listener>)
      requires Valid()
      ensures providerDead ==> called == []
      ensures !providerDead ==> called == Live(dead, Subscribers(requests)) && Ascending(called)
      ensures !providerDead ==> forall l :: multiset(called)[l] == if dead(l) then 0 else Subscriptions(requests, l)
    {
      if providerDead {
        return [];
      }
      called := CallInOrder(dead, subscribers.vect);
      SortedIsAscending(subscribers.vect);
      LiveAscending(dead, subscribers.vect);
      forall l | true
        ensures multiset(called)[l] == if dead(l) then 0 else Subscriptions(requests, l)
      {
        LiveCounts(dead, subscribers.vect, l);
        SubscriberOccurrences(requests, l);
      }
    }

    static method CallInOrder(dead: Listener -> bool, list: seq<Listener>) returns (called: seq<Listener>)
      ensures called == Live(dead, list)
    {
      hide Live;
      LiveNone(dead);
      called := [];
      for i := 0 to |list|
        invariant called == Live(dead, list[..i])
      {
        assert list[..i + 1] == list[..i] + [list[i]];
        LiveAppend(dead, list[..i], list[i]);
        if dead(list[i]) {
          continue;
        }
        called := called + [list[i]];
      }
      assert list[..|list|] == list;
    }

    /**
     The answer of the first live subscriber, by priority and then by address, that does not pass;
     `PassThru` exactly when there is none or the provider itself is gone.
     */
    method FirstResult(providerDead: bool, dead: Listener -> bool, answer: Listener -> ModResult) returns (result: ModResult)
      requires Valid()
      ensures result == PassThru <==>
                (providerDead || forall l :: Subscriptions(requests, l) > 0 && !dead(l) ==> answer(l) == PassThru)
      ensures result != PassThru ==> exists l ::
                && Subscriptions(requests, l) > 0 && !dead(l) && answer(l) == result
                && forall m :: Subscriptions(requests, m) > 0 && !dead(m) && Before(m, l) ==> answer(m) == PassThru
    {
      hide Subscriptions, Subscribers, Sorted, FirstAnswer, ElementComp, Before;
      if providerDead {
        return PassThru;
      }
      var list := subscribers.vect;
      result := AskInOrder(dead, answer, list);
      FirstAnswerPasses(dead, answer, list);
      forall l | true
        ensures l in list <==> Subscriptions(requests, l) > 0
      {
        SubscriberOccurrences(requests, l);
      }
      if result != PassThru {
        ghost var first := FirstAnswerIsLeast(dead, answer, list);
        ComesBefore();
      }
    }

    /** Asks listeners until one does not pass. */
    static method AskInOrder(dead: Listener -> bool, answer: Listener -> ModResult, list: seq<Listener>) returns (result: ModResult)
      ensures result == FirstAnswer(dead, answer, list)
    {
      result := PassThru;
      for i := 0 to |list|
        invariant result == PassThru && FirstAnswer(dead, answer, list) == FirstAnswer(dead, answer, list[i..])
      {
        assert list[i..][1..] == list[i + 1..];
        if dead(list[i]) {
          continue;
        }
        result := answer(list[i]);
        if result != PassThru {
          return;
        }
      }
    }
  }
}
