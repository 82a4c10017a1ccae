/**
 The containers that keep their elements in a sorted vector.

 Sets, maps and their multi variants share one base that looks elements up by binary search and
 inserts at the lower bound.  Elements are compared through a key and an arbitrary strict weak
 order, so different keys may be equivalent.  The model proves that the vectors agree with an
 unordered list on which every operation is obvious: for every key both hold the same equivalent
 elements in the same order, after any sequence of operations.
 */
module FlatContainers {

  /** How elements are compared: by their key, with `less`. */
  datatype Order<!T, !K> = Order(key: T -> K, less: (K, K) -> bool)

  ghost predicate StrictWeakOrder<K(!new)>(less: (K, K) -> bool)
  {
    && (forall a :: !less(a, a))
    && (forall a, b, c :: less(a, b) && less(b, c) ==> less(a, c))
    && (forall a, b, c :: !less(a, b) && !less(b, c) ==> !less(a, c))
  }

  predicate Equivalent<T, K>(o: Order<T, K>, a: K, b: K)
  {
    !o.less(a, b) && !o.less(b, a)
  }

  lemma Asymmetric<T, K(!new)>(o: Order<T, K>, a: K, b: K)
    requires StrictWeakOrder(o.less) && o.less(a, b)
    ensures !o.less(b, a)
  {
  }

  lemma Transitive<T, K(!new)>(o: Order<T, K>, a: K, b: K, c: K)
    requires StrictWeakOrder(o.less) && o.less(a, b) && o.less(b, c)
    ensures o.less(a, c)
  {
  }

  /** Equivalent keys compare alike with every key. */
  lemma EquivalentAlike<T, K(!new)>(o: Order<T, K>, a: K, b: K, c: K)
    requires StrictWeakOrder(o.less) && Equivalent(o, a, b)
    ensures (o.less(a, c) <==> o.less(b, c)) && (o.less(c, a) <==> o.less(c, b))
    ensures Equivalent(o, a, c) <==> Equivalent(o, b, c)
  {
  }

  ghost predicate Sorted<T, K>(o: Order<T, K>, v: seq<T>)
  {
    forall i, j :: 0 <= i < j < |v| ==> !o.less(o.key(v[j]), o.key(v[i]))
  }

  ghost predicate StrictlySorted<T, K>(o: Order<T, K>, v: seq<T>)
  {
    forall i, j :: 0 <= i < j < |v| ==> o.less(o.key(v[i]), o.key(v[j]))
  }

  /** The elements equivalent to `k`, in order. */
  function Class<T, K>(o: Order<T, K>, v: seq<T>, k: K): seq<T>
  {
    if v == [] then []
    else (if Equivalent(o, o.key(v[0]), k) then [v[0]] else []) + Class(o, v[1..], k)
  }

  // ----- lookups

  /** Binary search for the first element that is not less than `k`. */
  function LowerBound<T, K(!new)>(o: Order<T, K>, v: seq<T>, k: K, lo: nat, hi: nat): (r: nat)
    requires StrictWeakOrder(o.less) && Sorted(o, v) && lo <= hi <= |v|
    ensures lo <= r <= hi
    ensures forall i :: lo <= i < r ==> o.less(o.key(v[i]), k)
    ensures forall i :: r <= i < hi ==> !o.less(o.key(v[i]), k)
    decreases hi - lo
  {
    if lo == hi then lo
    else
      var mid := (lo + hi) / 2;
      if o.less(o.key(v[mid]), k) then LowerBound(o, v, k, mid + 1, hi) else LowerBound(o, v, k, lo, mid)
  }

  /** Binary search for the first element that is greater than `k`. */
  function UpperBound<T, K(!new)>(o: Order<T, K>, v: seq<T>, k: K, lo: nat, hi: nat): (r: nat)
    requires StrictWeakOrder(o.less) && Sorted(o, v) && lo <= hi <= |v|
    ensures lo <= r <= hi
    ensures forall i :: lo <= i < r ==> !o.less(k, o.key(v[i]))
    ensures forall i :: r <= i < hi ==> o.less(k, o.key(v[i]))
    decreases hi - lo
  {
    if lo == hi then lo
    else
      var mid := (lo + hi) / 2;
      if o.less(k, o.key(v[mid])) then UpperBound(o, v, k, lo, mid) else UpperBound(o, v, k, mid + 1, hi)
  }

  lemma {:induction false} ClassAppend<T, K>(o: Order<T, K>, v: seq<T>, w: seq<T>, k: K)
    ensures Class(o, v + w, k) == Class(o, v, k) + Class(o, w, k)
    decreases v
  {
    if v == [] {
      assert v + w == w;
    } else {
      assert (v + w)[1..] == v[1..] + w;
      ClassAppend(o, v[1..], w, k);
    }
  }

  lemma ClassOfFront<T, K>(o: Order<T, K>, x: T, v: seq<T>, k: K)
    ensures Class(o, [x] + v, k) == if Equivalent(o, o.key(x), k) then [x] + Class(o, v, k) else Class(o, v, k)
  {
    assert ([x] + v)[1..] == v;
  }

  lemma {:induction false} ClassOfNone<T, K>(o: Order<T, K>, v: seq<T>, k: K)
    requires forall i :: 0 <= i < |v| ==> !Equivalent(o, o.key(v[i]), k)
    ensures Class(o, v, k) == []
    decreases v
  {
    if v != [] {
      ClassOfNone(o, v[1..], k);
    }
  }

  lemma {:induction false} ClassOfAll<T, K>(o: Order<T, K>, v: seq<T>, k: K)
    requires forall i :: 0 <= i < |v| ==> Equivalent(o, o.key(v[i]), k)
    ensures Class(o, v, k) == v
    decreases v
  {
    if v != [] {
      ClassOfAll(o, v[1..], k);
    }
  }

  /** An element is in the class of its key as often as it is in the whole. */
  lemma {:induction false} OccurrencesInClass<T, K>(o: Order<T, K>, v: seq<T>, x: T)
    requires !o.less(o.key(x), o.key(x))
    ensures multiset(v)[x] == multiset(Class(o, v, o.key(x)))[x]
    decreases v
  {
    if v != [] {
      OccurrencesInClass(o, v[1..], x);
      assert v == [v[0]] + v[1..];
    }
  }

  /** Lists with the same classes hold the same elements the same number of times. */
  lemma SameClassesSameElements<T, K(!new)>(o: Order<T, K>, v: seq<T>, w: seq<T>)
    requires StrictWeakOrder(o.less) && forall k :: Class(o, v, k) == Class(o, w, k)
    ensures multiset(v) == multiset(w)
  {
    forall x | true
      ensures multiset(v)[x] == multiset(w)[x]
    {
      OccurrencesInClass(o, v, x);
      OccurrencesInClass(o, w, x);
      assert Class(o, v, o.key(x)) == Class(o, w, o.key(x));
    }
  }

  /** The range between the two bounds is exactly the class of `k`. */
  lemma EqualRangeIsClass<T, K(!new)>(o: Order<T, K>, v: seq<T>, k: K)
    requires StrictWeakOrder(o.less) && Sorted(o, v)
    ensures var lo, hi := LowerBound(o, v, k, 0, |v|), UpperBound(o, v, k, 0, |v|);
            && lo <= hi && v[lo..hi] == Class(o, v, k)
            && Class(o, v[..lo], k) == [] && Class(o, v[hi..], k) == []
  {
    hide StrictWeakOrder, Class, Sorted, LowerBound, UpperBound;
    var lo, hi := LowerBound(o, v, k, 0, |v|), UpperBound(o, v, k, 0, |v|);
    forall i | 0 <= i < lo
      ensures !o.less(k, o.key(v[i]))
    {
      Asymmetric(o, o.key(v[i]), k);
    }
    assert hi < |v| ==> o.less(k, o.key(v[hi]));
    assert v == v[..lo] + (v[lo..hi] + v[hi..]);
    ClassAppend(o, v[..lo], v[lo..hi] + v[hi..], k);
    ClassAppend(o, v[lo..hi], v[hi..], k);
    ClassOfNone(o, v[..lo], k);
    ClassOfAll(o, v[lo..hi], k);
    ClassOfNone(o, v[hi..], k);
  }

  // ----- insertion and removal on vectors

  function InsertAt<T>(v: seq<T>, i: nat, x: T): seq<T>
    requires i <= |v|
  {
    v[..i] + [x] + v[i..]
  }

  function InsertMulti<T, K(!new)>(o: Order<T, K>, v: seq<T>, x: T): seq<T>
    requires StrictWeakOrder(o.less) && Sorted(o, v)
  {
    InsertAt(v, LowerBound(o, v, o.key(x), 0, |v|), x)
  }

  function InsertSingle<T, K(!new)>(o: Order<T, K>, v: seq<T>, x: T): seq<T>
    requires StrictWeakOrder(o.less) && Sorted(o, v)
  {
    var i := LowerBound(o, v, o.key(x), 0, |v|);
    if i == |v| || o.less(o.key(x), o.key(v[i])) then InsertAt(v, i, x) else v
  }

  function EraseKey<T, K(!new)>(o: Order<T, K>, v: seq<T>, k: K): seq<T>
    requires StrictWeakOrder(o.less) && Sorted(o, v)
  {
    EqualRangeIsClass(o, v, k);
    v[..LowerBound(o, v, k, 0, |v|)] + v[UpperBound(o, v, k, 0, |v|)..]
  }

  /** A new element goes before its equivalents and leaves every other class alone. */
  lemma InsertMultiClasses<T, K(!new)>(o: Order<T, K>, v: seq<T>, x: T, k: K)
    requires StrictWeakOrder(o.less) && Sorted(o, v)
    ensures Class(o, InsertMulti(o, v, x), k) == if Equivalent(o, o.key(x), k) then [x] + Class(o, v, k) else Class(o, v, k)
  {
    hide StrictWeakOrder, Class;
    var i := LowerBound(o, v, o.key(x), 0, |v|);
    assert v == v[..i] + v[i..];
    ClassAppend(o, v[..i] + [x], v[i..], k);
    ClassAppend(o, v[..i], [x], k);
    ClassAppend(o, v[..i], v[i..], k);
    if Equivalent(o, o.key(x), k) {
      forall j | 0 <= j < i
        ensures !Equivalent(o, o.key(v[j]), k)
      {
        EquivalentAlike(o, o.key(x), k, o.key(v[j]));
      }
      ClassOfNone(o, v[..i], k);
      ClassOfAll(o, [x], k);
    } else {
      ClassOfNone(o, [x], k);
    }
  }

  lemma InsertMultiSorted<T, K(!new)>(o: Order<T, K>, v: seq<T>, x: T)
    requires StrictWeakOrder(o.less) && Sorted(o, v)
    ensures Sorted(o, InsertMulti(o, v, x))
  {
    hide StrictWeakOrder, LowerBound;
    var n := LowerBound(o, v, o.key(x), 0, |v|);
    var w := InsertMulti(o, v, x);
    forall i | 0 <= i < n
      ensures !o.less(o.key(x), o.key(v[i]))
    {
      Asymmetric(o, o.key(v[i]), o.key(x));
    }
    assert forall i :: 0 <= i < |w| ==> w[i] == if i < n then v[i] else if i == n then x else v[i - 1];
  }

  /** The first insertion of a class wins. */
  lemma InsertSingleClasses<T, K(!new)>(o: Order<T, K>, v: seq<T>, x: T, k: K)
    requires StrictWeakOrder(o.less) && Sorted(o, v)
    ensures InsertSingle(o, v, x) == if Class(o, v, o.key(x)) == [] then InsertMulti(o, v, x) else v
    ensures Class(o, InsertSingle(o, v, x), k) ==
            if Equivalent(o, o.key(x), k) && Class(o, v, o.key(x)) == [] then [x] else Class(o, v, k)
  {
    var i := LowerBound(o, v, o.key(x), 0, |v|);
    EqualRangeIsClass(o, v, o.key(x));
    InsertMultiClasses(o, v, x, k);
    if Equivalent(o, o.key(x), k) {
      EquivalentClasses(o, v, o.key(x), k);
    }
  }

  /** Equivalent keys have the same class. */
  lemma {:induction false} EquivalentClasses<T, K(!new)>(o: Order<T, K>, v: seq<T>, j: K, k: K)
    requires StrictWeakOrder(o.less) && Equivalent(o, j, k)
    ensures Class(o, v, j) == Class(o, v, k)
    decreases v
  {
    if v != [] {
      EquivalentClasses(o, v[1..], j, k);
    }
  }

  lemma InsertSingleStrictlySorted<T, K(!new)>(o: Order<T, K>, v: seq<T>, x: T)
    requires StrictWeakOrder(o.less) && StrictlySorted(o, v) && Sorted(o, v)
    ensures StrictlySorted(o, InsertSingle(o, v, x))
  {
    hide StrictWeakOrder, LowerBound;
    var n := LowerBound(o, v, o.key(x), 0, |v|);
    var w := InsertSingle(o, v, x);
    if w != v {
      forall i | n <= i < |v|
        ensures o.less(o.key(x), o.key(v[i]))
      {
        if i > n {
          Transitive(o, o.key(x), o.key(v[n]), o.key(v[i]));
        }
      }
      assert forall i :: 0 <= i < |w| ==> w[i] == if i < n then v[i] else if i == n then x else v[i - 1];
    }
  }

  lemma StrictlySortedIsSorted<T, K(!new)>(o: Order<T, K>, v: seq<T>)
    requires StrictWeakOrder(o.less) && StrictlySorted(o, v)
    ensures Sorted(o, v)
  {
    forall i, j | 0 <= i < j < |v|
      ensures !o.less(o.key(v[j]), o.key(v[i]))
    {
      var a, b := o.key(v[i]), o.key(v[j]);
      assert o.less(a, b) && !o.less(a, a);
    }
  }

  /** Exactly the equivalent elements go. */
  lemma EraseKeyClasses<T, K(!new)>(o: Order<T, K>, v: seq<T>, k: K, j: K)
    requires StrictWeakOrder(o.less) && Sorted(o, v)
    ensures Class(o, EraseKey(o, v, k), j) == if Equivalent(o, k, j) then [] else Class(o, v, j)
    ensures |EraseKey(o, v, k)| == |v| - |Class(o, v, k)|
  {
    hide StrictWeakOrder, Class, Sorted, LowerBound, UpperBound;
    EqualRangeIsClass(o, v, k);
    var lo, hi := LowerBound(o, v, k, 0, |v|), UpperBound(o, v, k, 0, |v|);
    assert v == v[..lo] + (v[lo..hi] + v[hi..]);
    ClassAppend(o, v[..lo], v[hi..], j);
    ClassAppend(o, v[..lo], v[lo..hi] + v[hi..], j);
    ClassAppend(o, v[lo..hi], v[hi..], j);
    if Equivalent(o, k, j) {
      EquivalentClasses(o, v[..lo], k, j);
      EquivalentClasses(o, v[hi..], k, j);
    } else {
      forall i | lo <= i < hi
        ensures !Equivalent(o, o.key(v[i]), j)
      {
        EquivalentAlike(o, k, o.key(v[i]), j);
      }
      ClassOfNone(o, v[lo..hi], j);
    }
  }

  lemma EraseKeySorted<T, K(!new)>(o: Order<T, K>, v: seq<T>, k: K)
    requires StrictWeakOrder(o.less) && Sorted(o, v)
    ensures Sorted(o, EraseKey(o, v, k))
    ensures StrictlySorted(o, v) ==> StrictlySorted(o, EraseKey(o, v, k))
  {
    hide StrictWeakOrder, Class, LowerBound, UpperBound;
    EqualRangeIsClass(o, v, k);
    var lo, hi := LowerBound(o, v, k, 0, |v|), UpperBound(o, v, k, 0, |v|);
    var w := EraseKey(o, v, k);
    assert forall i :: 0 <= i < |w| ==> w[i] == if i < lo then v[i] else v[i + hi - lo];
  }

  // ----- whole runs against an unordered list

  datatype Op<T, K> = Insert(x: T) | Erase(k: K)

  /** The list without the elements equivalent to `k`. */
  function Drop<T, K>(o: Order<T, K>, list: seq<T>, k: K): seq<T>
  {
    if list == [] then []
    else (if Equivalent(o, o.key(list[0]), k) then [] else [list[0]]) + Drop(o, list[1..], k)
  }

  /** The multi containers as a list: an insertion puts the element in front, an erasure drops a class. */
  function MultiList<T, K>(o: Order<T, K>, ops: seq<Op<T, K>>): seq<T>
  {
    if ops == [] then []
    else
      var before := MultiList(o, ops[..|ops| - 1]);
      match ops[|ops| - 1]
      case Insert(x) => [x] + before
      case Erase(k) => Drop(o, before, k)
  }

  /** An insertion into a single container's list: it only counts when no equivalent element is there. */
  function AddFirst<T, K>(o: Order<T, K>, list: seq<T>, x: T): seq<T>
  {
    if exists i :: 0 <= i < |list| && Equivalent(o, o.key(list[i]), o.key(x)) then list else [x] + list
  }

  /** The single containers as a list. */
  function SingleList<T, K>(o: Order<T, K>, ops: seq<Op<T, K>>): seq<T>
  {
    if ops == [] then []
    else
      var before := SingleList(o, ops[..|ops| - 1]);
      match ops[|ops| - 1]
      case Insert(x) => AddFirst(o, before, x)
      case Erase(k) => Drop(o, before, k)
  }

  /** The vector of a multi container after a sequence of operations. */
  function MultiAfter<T, K(!new)>(o: Order<T, K>, ops: seq<Op<T, K>>): (v: seq<T>)
    requires StrictWeakOrder(o.less)
    ensures Sorted(o, v)
  {
    if ops == [] then []
    else
      var before := MultiAfter(o, ops[..|ops| - 1]);
      match ops[|ops| - 1]
      case Insert(x) => InsertMultiSorted(o, before, x); InsertMulti(o, before, x)
      case Erase(k) => EraseKeySorted(o, before, k); EraseKey(o, before, k)
  }

  /** The vector of a single container after a sequence of operations. */
  function SingleAfter<T, K(!new)>(o: Order<T, K>, ops: seq<Op<T, K>>): (v: seq<T>)
    requires StrictWeakOrder(o.less)
    ensures StrictlySorted(o, v) && Sorted(o, v)
  {
    if ops == [] then []
    else
      var before := SingleAfter(o, ops[..|ops| - 1]);
      match ops[|ops| - 1]
      case Insert(x) =>
        InsertSingleStrictlySorted(o, before, x);
        StrictlySortedIsSorted(o, InsertSingle(o, before, x));
        InsertSingle(o, before, x)
      case Erase(k) => EraseKeySorted(o, before, k); EraseKey(o, before, k)
  }

  lemma {:induction false} DropClasses<T, K(!new)>(o: Order<T, K>, list: seq<T>, k: K, j: K)
    requires StrictWeakOrder(o.less)
    ensures Class(o, Drop(o, list, k), j) == if Equivalent(o, k, j) then [] else Class(o, list, j)
    decreases list
  {
    hide StrictWeakOrder;
    if list != [] {
      var x, rest := list[0], list[1..];
      DropClasses(o, rest, k, j);
      if Equivalent(o, o.key(x), k) {
        EquivalentAlike(o, o.key(x), k, j);
        assert Drop(o, list, k) == Drop(o, rest, k);
        assert !Equivalent(o, k, j) ==> Class(o, list, j) == Class(o, rest, j);
      } else {
        ClassOfFront(o, x, Drop(o, rest, k), j);
        if Equivalent(o, k, j) {
          EquivalentAlike(o, k, j, o.key(x));
        }
      }
    }
  }

  lemma {:induction false} ClassEmptyIff<T, K>(o: Order<T, K>, v: seq<T>, k: K)
    ensures Class(o, v, k) == [] <==> !exists i :: 0 <= i < |v| && Equivalent(o, o.key(v[i]), k)
    decreases v
  {
    if v != [] {
      ClassEmptyIff(o, v[1..], k);
      if i :| 0 < i < |v| && Equivalent(o, o.key(v[i]), k) {
        assert v[1..][i - 1] == v[i];
      }
    }
  }

  /**
   After any operations the vector of a multi container is sorted and, for every key, holds the
   equivalent elements most recently inserted first.
   */
  lemma {:induction false} MultiAgrees<T, K(!new)>(o: Order<T, K>, ops: seq<Op<T, K>>, k: K)
    requires StrictWeakOrder(o.less)
    ensures Class(o, MultiAfter(o, ops), k) == Class(o, MultiList(o, ops), k)
    decreases ops
  {
    if ops != [] {
      var front := ops[..|ops| - 1];
      var before, list := MultiAfter(o, front), MultiList(o, front);
      MultiAgrees(o, front, k);
      match ops[|ops| - 1]
      case Insert(x) =>
        InsertMultiClasses(o, before, x, k);
        ClassOfFront(o, x, list, k);
      case Erase(j) =>
        EraseKeyClasses(o, before, j, k);
        DropClasses(o, list, j, k);
    }
  }

  lemma MultiHoldsInserted<T, K(!new)>(o: Order<T, K>, ops: seq<Op<T, K>>)
    requires StrictWeakOrder(o.less)
    ensures multiset(MultiAfter(o, ops)) == multiset(MultiList(o, ops))
  {
    forall k | true
      ensures Class(o, MultiAfter(o, ops), k) == Class(o, MultiList(o, ops), k)
    {
      MultiAgrees(o, ops, k);
    }
    SameClassesSameElements(o, MultiAfter(o, ops), MultiList(o, ops));
  }

  lemma InsertSingleAgrees<T, K(!new)>(o: Order<T, K>, v: seq<T>, list: seq<T>, x: T, k: K)
    requires StrictWeakOrder(o.less) && Sorted(o, v)
    requires Class(o, v, k) == Class(o, list, k) && Class(o, v, o.key(x)) == Class(o, list, o.key(x))
    ensures Class(o, InsertSingle(o, v, x), k) == Class(o, AddFirst(o, list, x), k)
    ensures |Class(o, InsertSingle(o, v, x), k)| <= if |Class(o, v, k)| == 0 then 1 else |Class(o, v, k)|
  {
    hide StrictWeakOrder, Class, Sorted, InsertSingle;
    InsertSingleClasses(o, v, x, k);
    ClassEmptyIff(o, list, o.key(x));
    ClassOfFront(o, x, list, k);
    if Equivalent(o, o.key(x), k) {
      EquivalentClasses(o, list, o.key(x), k);
    }
  }

  /**
   After any operations the vector of a single container is strictly sorted and, for every key,
   holds the equivalent element that was inserted first since the class was last erased.
   */
  lemma {:induction false} SingleAgrees<T, K(!new)>(o: Order<T, K>, ops: seq<Op<T, K>>, k: K)
    requires StrictWeakOrder(o.less)
    ensures Class(o, SingleAfter(o, ops), k) == Class(o, SingleList(o, ops), k)
    ensures |Class(o, SingleAfter(o, ops), k)| <= 1
    decreases ops
  {
    assert Class(o, [], k) == [];
    hide StrictWeakOrder, Class;
    if ops != [] {
      var front := ops[..|ops| - 1];
      var before, list := SingleAfter(o, front), SingleList(o, front);
      SingleAgrees(o, front, k);
      match ops[|ops| - 1]
      case Insert(x) =>
        SingleAgrees(o, front, o.key(x));
        InsertSingleAgrees(o, before, list, x, k);
      case Erase(j) =>
        EraseKeyClasses(o, before, j, k);
        DropClasses(o, list, j, k);
    }
  }

  // ----- the containers

  /** The position of the first element equivalent to `k`, or the length if there is none. */
  function LinearSearch<T, K>(o: Order<T, K>, v: seq<T>, k: K): nat
  {
    if v == [] || Equivalent(o, o.key(v[0]), k) then 0 else 1 + LinearSearch(o, v[1..], k)
  }

  lemma {:induction false} LinearSearchAt<T, K>(o: Order<T, K>, v: seq<T>, k: K, n: nat)
    requires n <= |v| && (forall i :: 0 <= i < n ==> !Equivalent(o, o.key(v[i]), k))
    requires n < |v| ==> Equivalent(o, o.key(v[n]), k)
    ensures LinearSearch(o, v, k) == n
    decreases v
  {
    if v != [] && n > 0 {
      LinearSearchAt(o, v[1..], k, n - 1);
    }
  }

  class FlatBase<T(!new), K(!new)> {
    const order: Order<T, K>
    var vect: seq<T>

    ghost predicate Valid()
      reads this
    {
      StrictWeakOrder(order.less) && Sorted(order, vect)
    }

    constructor (order: Order<T, K>)
      requires StrictWeakOrder(order.less)
      ensures Valid() && this.order == order && vect == []
    {
      this.order := order;
      vect := [];
    }

    /** Finds what a linear search finds. */
    method Find(k: K) returns (it: nat)
      requires Valid()
      ensures it == LinearSearch(order, vect, k)
    {
      it := LowerBound(order, vect, k, 0, |vect|);
      LinearSearchAt(order, vect, k, if it < |vect| && !order.less(k, order.key(vect[it])) then it else |vect|);
      if !(it < |vect| && !order.less(k, order.key(vect[it]))) {
        it := |vect|;
      }
    }

    method EqualRange(k: K) returns (first: nat, last: nat)
      requires Valid()
      ensures first <= last <= |vect| && vect[first..last] == Class(order, vect, k)
    {
      EqualRangeIsClass(order, vect, k);
      first, last := LowerBound(order, vect, k, 0, |vect|), UpperBound(order, vect, k, 0, |vect|);
    }

    method Count(k: K) returns (n: nat)
      requires Valid()
      ensures n == |Class(order, vect, k)|
    {
      var first, last := EqualRange(k);
      n := last - first;
    }

    /** Removes the elements equivalent to `k` and returns how many there were. */
    method Erase(k: K) returns (n: nat)
      requires Valid()
      modifies this
      ensures Valid() && vect == EraseKey(order, old(vect), k)
      ensures n == |Class(order, old(vect), k)|
    {
      EqualRangeIsClass(order, vect, k);
      EraseKeySorted(order, vect, k);
      var size := |vect|;
      var first, last := LowerBound(order, vect, k, 0, |vect|), UpperBound(order, vect, k, 0, |vect|);
      vect := vect[..first] + vect[last..];
      n := size - |vect|;
    }

    /** Inserts unless an equivalent element is there; returns the position of the element that is now there. */
    method InsertOne(x: T) returns (it: nat, inserted: bool)
      requires Valid()
      modifies this
      ensures Valid() && vect == InsertSingle(order, old(vect), x)
      ensures StrictlySorted(order, old(vect)) ==> StrictlySorted(order, vect)
      ensures inserted <==> Class(order, old(vect), order.key(x)) == []
      ensures it < |vect| && (inserted ==> vect[it] == x)
      ensures !inserted ==> vect == old(vect) && vect[it] == Class(order, vect, order.key(x))[0]
    {
      ghost var before := vect;
      InsertSingleClasses(order, vect, x, order.key(x));
      InsertMultiSorted(order, vect, x);
      if StrictlySorted(order, vect) {
        InsertSingleStrictlySorted(order, vect, x);
      }
      EqualRangeIsClass(order, vect, order.key(x));
      inserted := false;
      it := LowerBound(order, vect, order.key(x), 0, |vect|);
      if it == |vect| || order.less(order.key(x), order.key(vect[it])) {
        inserted := true;
        vect := InsertAt(vect, it, x);
      }
    }

    method InsertEquivalent(x: T) returns (it: nat)
      requires Valid()
      modifies this
      ensures Valid() && vect == InsertMulti(order, old(vect), x)
      ensures it < |vect| && vect[it] == x
    {
      InsertMultiSorted(order, vect, x);
      it := LowerBound(order, vect, order.key(x), 0, |vect|);
      vect := InsertAt(vect, it, x);
    }

    /** Inserts the elements of a range one after the other. */
    method InsertRange(xs: seq<T>)
      requires Valid()
      modifies this
      ensures Valid() && vect == InsertAll(order, old(vect), xs)
      ensures StrictlySorted(order, old(vect)) ==> StrictlySorted(order, vect)
    {
      hide InsertSingle;
      assert InsertAll(order, vect, xs[..0]) == vect;
      for i := 0 to |xs|
        invariant Valid() && vect == InsertAll(order, old(vect), xs[..i])
        invariant StrictlySorted(order, old(vect)) ==> StrictlySorted(order, vect)
      {
        assert xs[..i + 1][..i] == xs[..i];
        var _, _ := InsertOne(xs[i]);
      }
      assert xs[..|xs|] == xs;
    }
  }

  /** The vector of a single container after inserting elements in order. */
  function InsertAll<T, K(!new)>(o: Order<T, K>, v: seq<T>, xs: seq<T>): (r: seq<T>)
    requires StrictWeakOrder(o.less) && Sorted(o, v)
    ensures Sorted(o, r)
    decreases xs
  {
    if xs == [] then v
    else
      var before := InsertAll(o, v, xs[..|xs| - 1]);
      InsertSingleSorted(o, before, xs[|xs| - 1]);
      InsertSingle(o, before, xs[|xs| - 1])
  }

  lemma InsertSingleSorted<T, K(!new)>(o: Order<T, K>, v: seq<T>, x: T)
    requires StrictWeakOrder(o.less) && Sorted(o, v)
    ensures Sorted(o, InsertSingle(o, v, x))
  {
    InsertMultiSorted(o, v, x);
    InsertSingleClasses(o, v, x, o.key(x));
  }

  /** After inserting a range, classes that had an element are unchanged and the others hold their first element of the range. */
  lemma {:induction false} InsertAllClasses<T, K(!new)>(o: Order<T, K>, v: seq<T>, xs: seq<T>, k: K)
    requires StrictWeakOrder(o.less) && Sorted(o, v)
    ensures Class(o, InsertAll(o, v, xs), k) ==
            if Class(o, v, k) != [] || Class(o, xs, k) == [] then Class(o, v, k) else [Class(o, xs, k)[0]]
    decreases xs
  {
    hide StrictWeakOrder, Class, InsertSingle, Sorted, Equivalent;
    ClassOfNone(o, [], k);
    if xs != [] {
      var front, last := xs[..|xs| - 1], xs[|xs| - 1];
      InsertAllClasses(o, v, front, k);
      assert xs == front + [last];
      ClassAppend(o, front, [last], k);
      InsertSingleClasses(o, InsertAll(o, v, front), last, k);
      if Equivalent(o, o.key(last), k) {
        EquivalentClasses(o, InsertAll(o, v, front), o.key(last), k);
        ClassOfAll(o, [last], k);
        assert Class(o, xs, k) == Class(o, front, k) + [last];
      } else {
        ClassOfNone(o, [last], k);
        assert Class(o, xs, k) == Class(o, front, k);
      }
    }
  }

  /** The mapped value for a key, after inserting a default one if the key has none. */
  method Subscript<K(!new), V(!new)>(m: FlatBase<(K, V), K>, k: K, default: V) returns (value: V)
    requires m.Valid() && forall e: (K, V) :: m.order.key(e) == e.0
    modifies m
    ensures m.Valid() && m.vect == InsertSingle(m.order, old(m.vect), (k, default))
    ensures value == var present := Class(m.order, old(m.vect), k); if present == [] then default else present[0].1
  {
    var it, inserted := m.InsertOne((k, default));
    value := m.vect[it].1;
  }
}
