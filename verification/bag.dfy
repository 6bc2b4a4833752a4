/** The growable, unordered, index-addressed container (`Bag`) every other
    part of the storage core is built on.

    A bag is a backing array of nullable slots plus a `size`. Slots at or
    above `size` are NOT assumed to be null: `Set` moves `size` to exactly
    `index + 1`, which can shrink it and leave stale values above it. */
module Bags {
  import opened Nullable

  /** Capacity of a bag built with the no-argument constructor. */
  const DEFAULT_CAPACITY: nat := 64

  datatype BagRep<E> = BagRep(data: seq<Option<E>>, size: nat)

  /** Every bag keeps `size <= capacity`; each operation below has to
      re-establish it to return a `Bag`. */
  type Bag<E> = b: BagRep<E> | b.size <= |b.data| witness BagRep([], 0)

  /** The argument of `addAll`/`removeAll`: this very bag object, or some
      other bag (possibly with equal contents). */
  datatype BagArg<E> = ThisBag | OtherBag(bag: Bag<E>)

  function Max(a: nat, b: nat): nat { if a >= b then a else b }

  /** Length of the backing array (`getCapacity`). */
  function Capacity<E>(b: Bag<E>): nat { |b.data| }

  /** `size()`: the number of live slots. */
  function Size<E>(b: Bag<E>): (r: nat)
    ensures r == |Live(b)| && r <= Capacity(b)
  {
    b.size
  }

  /** `isEmpty()`: no live slot. */
  function IsEmpty<E>(b: Bag<E>): (r: bool)
    ensures r <==> Live(b) == []
  {
    b.size == 0
  }

  /** The slots `0 .. size-1`, the ones `size`, `contains` and the removals look at. */
  function Live<E>(b: Bag<E>): seq<Option<E>> { b.data[..b.size] }

  /** Slot `i`, reading positions past the backing array as null (what a
      grown copy of the array holds there). */
  function At<E>(b: Bag<E>, i: nat): Option<E> {
    if i < |b.data| then b.data[i] else None
  }

  /** How many live slots hold exactly `e`. */
  function Occurrences<E(==)>(b: Bag<E>, e: Option<E>): nat { multiset(Live(b))[e] }

  function Nulls<E>(n: nat): (s: seq<Option<E>>)
    ensures |s| == n
    ensures forall i :: 0 <= i < n ==> s[i] == None
  {
    seq(n, _ => None)
  }

  /** `new Bag(capacity)`. */
  function WithCapacity<E>(capacity: nat): (b: Bag<E>)
    ensures Capacity(b) == capacity && IsEmpty(b)
    ensures forall i :: 0 <= i < capacity ==> b.data[i] == None
  {
    BagRep(Nulls(capacity), 0)
  }

  /** `new Bag()`. */
  function NewBag<E>(): (b: Bag<E>)
    ensures Capacity(b) == DEFAULT_CAPACITY && IsEmpty(b)
    ensures forall i :: 0 <= i < DEFAULT_CAPACITY ==> b.data[i] == None
  {
    WithCapacity(DEFAULT_CAPACITY)
  }

  /** `get(index)`: an unchecked array read. */
  function Get<E>(b: Bag<E>, index: nat): (r: Option<E>)
    requires index < Capacity(b)
    ensures r == At(b, index)
    ensures index < b.size ==> r == Live(b)[index]
  {
    b.data[index]
  }

  /** `isIndexWithinBounds(index)`: a capacity check that says nothing about
      whether the slot is occupied. */
  function IsIndexWithinBounds<E>(b: Bag<E>, index: int): (r: bool)
    ensures r <==> (0 <= index && index < Capacity(b) && At(b, index) == Get(b, index))
  {
    0 <= index < |b.data|
  }

  /** `grow(newCapacity)`: copy into an array of
      `max(request, capacity * 3 / 2 + 1)` slots, padding with nulls. */
  function Grow<E>(b: Bag<E>, request: nat): (r: Bag<E>)
    ensures Capacity(r) == Max(request, Capacity(b) * 3 / 2 + 1)
    ensures Capacity(r) > Capacity(b)
    ensures r.size == b.size
    ensures forall i :: 0 <= i < Capacity(r) ==> r.data[i] == At(b, i)
  {
    var n := Max(request, |b.data| * 3 / 2 + 1);
    BagRep(b.data + Nulls(n - |b.data|), b.size)
  }

  /** `add(e)`: write at `size` (growing first when full) and bump `size`. */
  function Add<E>(b: Bag<E>, e: Option<E>): (r: Bag<E>)
    ensures Live(r) == Live(b) + [e]
    ensures Capacity(r) >= Capacity(b)
    ensures b.size < Capacity(b) ==> Capacity(r) == Capacity(b)
    ensures b.size == Capacity(b) ==> Capacity(r) == Capacity(b) * 3 / 2 + 1
    ensures forall i :: b.size < i < Capacity(r) ==> r.data[i] == At(b, i)
  {
    var g := if b.size == |b.data| then Grow(b, b.size + 1) else b;
    BagRep(g.data[b.size := e], b.size + 1)
  }

  /** `set(index, e)`: a high-water-mark write. Grows to at least
      `index * 2` when `index` is past the end, then sets `size` to exactly
      `index + 1`, shrinking it when `index` is below the old size. */
  function Set<E>(b: Bag<E>, index: nat, e: Option<E>): (r: Bag<E>)
    ensures r.size == index + 1
    ensures index < Capacity(r) && r.data[index] == e
    ensures forall i :: 0 <= i < Capacity(r) && i != index ==> r.data[i] == At(b, i)
    ensures index < Capacity(b) ==> Capacity(r) == Capacity(b)
    ensures index >= Capacity(b) ==> Capacity(r) == Max(index * 2, Capacity(b) * 3 / 2 + 1)
  {
    var g := if index >= |b.data| then Grow(b, index * 2) else b;
    BagRep(g.data[index := e], index + 1)
  }

  /** `set(index, e)` changes slot `index` and no other, however far the bag
      grows. */
  lemma SetOverwritesOneSlot<E>(b: Bag<E>, index: nat, e: Option<E>)
    ensures forall x: nat :: At(Set(b, index, e), x) == if x == index then e else At(b, x)
  {
    var r := Set(b, index, e);
    forall x: nat ensures At(r, x) == if x == index then e else At(b, x) {
      if x >= Capacity(r) {
        assert Capacity(r) >= Capacity(b);
      }
    }
  }

  /** `ensureCapacity(index)`: grow to at least `index + 1` slots when
      `index` is past the end; size and contents are untouched. */
  function EnsureCapacity<E>(b: Bag<E>, index: nat): (r: Bag<E>)
    ensures index < Capacity(r)
    ensures index < Capacity(b) ==> r == b
    ensures index >= Capacity(b) ==> Capacity(r) == Max(index + 1, Capacity(b) * 3 / 2 + 1)
    ensures r.size == b.size && Capacity(r) >= Capacity(b)
    ensures forall i :: 0 <= i < Capacity(r) ==> r.data[i] == At(b, i)
  {
    if index >= |b.data| then Grow(b, index + 1) else b
  }

  /** Overwrite slot `index` without touching `size`. This is how a caller
      that holds a reference to an element object and mutates it is seen from
      the bag that stores it; it is not a Bag method. */
  function UpdateInPlace<E>(b: Bag<E>, index: nat, e: Option<E>): (r: Bag<E>)
    requires index < Capacity(b)
    ensures r.size == b.size && Capacity(r) == Capacity(b)
    ensures r.data[index] == e
    ensures forall i :: 0 <= i < Capacity(b) && i != index ==> r.data[i] == b.data[i]
  {
    BagRep(b.data[index := e], b.size)
  }

  /** `removeLast()`: null on an empty bag; otherwise pop slot `size - 1`
      and null it. */
  function RemoveLast<E>(b: Bag<E>): (r: (Bag<E>, Option<E>))
    ensures IsEmpty(b) ==> r == (b, None)
    ensures Capacity(r.0) == Capacity(b)
    ensures !IsEmpty(b) ==> r.1 == b.data[b.size - 1]
    ensures !IsEmpty(b) ==> Live(r.0) == Live(b)[..b.size - 1] && r.0.data[b.size - 1] == None
    ensures forall i :: b.size <= i < Capacity(b) ==> r.0.data[i] == b.data[i]
  {
    if b.size > 0 then
      var last := b.size - 1;
      (BagRep(b.data[last := None], last), b.data[last])
    else
      (b, None)
  }

  /** `remove(int index)`: move the last live element into `index` and null
      the vacated last slot. Java only faults when `index` is past the
      backing array or the bag is empty; an index between `size` and the
      capacity is accepted and parks the last element outside the live range. */
  function RemoveAt<E>(b: Bag<E>, index: nat): (r: (Bag<E>, Option<E>))
    requires index < Capacity(b) && b.size > 0
    ensures r.1 == b.data[index]
    ensures r.0.size == b.size - 1 && Capacity(r.0) == Capacity(b)
    ensures r.0.data[b.size - 1] == None
    ensures r.0.data[index] == if index == b.size - 1 then None else b.data[b.size - 1]
    ensures forall j :: 0 <= j < Capacity(b) && j != index && j != b.size - 1 ==> r.0.data[j] == b.data[j]
    ensures index < b.size - 1 ==> Live(r.0) == Live(b)[..b.size - 1][index := b.data[b.size - 1]]
    ensures index < b.size ==> multiset(Live(r.0)) == multiset(Live(b)) - multiset{b.data[index]}
    ensures index >= b.size - 1 ==> Live(r.0) == Live(b)[..b.size - 1]
  {
    var last := b.size - 1;
    var r := BagRep(b.data[index := b.data[last]][last := None], last);
    assert Live(r) == r.data[..last];
    SwapRemoveLive(b, index, r.data);
    assert index < b.size ==> multiset(Live(r)) == multiset(Live(b)) - multiset{b.data[index]} by {
      if index < b.size {
        SwapRemoveMultiset(Live(b), index);
      }
    }
    (r, b.data[index])
  }

  /** The live part of the array `remove(int)` leaves behind. */
  lemma SwapRemoveLive<E>(b: Bag<E>, index: nat, d: seq<Option<E>>)
    requires index < |b.data| && b.size > 0
    requires d == b.data[index := b.data[b.size - 1]][b.size - 1 := None]
    ensures index < b.size - 1 ==> d[..b.size - 1] == Live(b)[..b.size - 1][index := Live(b)[b.size - 1]]
    ensures index >= b.size - 1 ==> d[..b.size - 1] == Live(b)[..b.size - 1]
  {
  }

  /** Moving the last element over position `i` and dropping the last
      position removes exactly one occurrence of `s[i]`. */
  lemma SwapRemoveMultiset<T>(s: seq<T>, i: nat)
    requires i < |s|
    ensures i < |s| - 1 ==>
      multiset(s[..|s| - 1][i := s[|s| - 1]]) == multiset(s) - multiset{s[i]}
    ensures multiset(s[..|s| - 1]) == multiset(s) - multiset{s[|s| - 1]}
  {
    var t := s[..|s| - 1];
    assert s == t + [s[|s| - 1]];
    assert multiset(s) == multiset(t) + multiset{s[|s| - 1]};
    if i < |s| - 1 {
      assert t[i] == s[i];
      assert s[i] in multiset(t);
    }
  }

  /** Position of the first slot of `s` that holds exactly `e` (Java `==`),
      or `|s|` when there is none. */
  function IndexOf<E(==)>(s: seq<Option<E>>, e: Option<E>): (i: nat)
    ensures i <= |s|
    ensures i < |s| ==> s[i] == e
    ensures forall j :: 0 <= j < i ==> s[j] != e
  {
    if s == [] then 0
    else if s[0] == e then 0
    else 1 + IndexOf(s[1..], e)
  }

  /** `contains(e)`: a scan of the live slots by identity. */
  function Contains<E(==)>(b: Bag<E>, e: Option<E>): (r: bool)
    ensures r <==> e in Live(b)
    ensures r <==> Occurrences(b, e) > 0
  {
    IndexOf(Live(b), e) < b.size
  }

  /** `remove(E e)`: swap-remove the first live slot holding `e`; report
      whether there was one. */
  function RemoveValue<E(==)>(b: Bag<E>, e: Option<E>): (r: (Bag<E>, bool))
    ensures r.1 <==> e in Live(b)
    ensures r.1 ==> r.0.size == b.size - 1 && Capacity(r.0) == Capacity(b)
    ensures !r.1 ==> r.0 == b
    ensures r.1 ==> exists i :: 0 <= i < b.size && b.data[i] == e
                                && (forall j :: 0 <= j < i ==> b.data[j] != e)
                                && r.0 == RemoveAt(b, i).0
    ensures multiset(Live(r.0)) == multiset(Live(b)) - multiset{e}
  {
    var i := IndexOf(Live(b), e);
    if i < b.size then
      assert forall j :: 0 <= j < i ==> b.data[j] == Live(b)[j];
      (RemoveAt(b, i).0, true)
    else
      assert e !in multiset(Live(b));
      (b, false)
  }

  /** `add(e)` adds one occurrence of `e` and changes no other count. */
  lemma AddCounts<E>(b: Bag<E>, e: Option<E>)
    ensures forall x :: Occurrences(Add(b, e), x) == Occurrences(b, x) + (if x == e then 1 else 0)
  {
    assert multiset(Live(Add(b, e))) == multiset(Live(b)) + multiset{e};
  }

  /** `remove(e)` takes away one occurrence of `e`, if there is one, and
      changes no other count. */
  lemma RemoveValueCounts<E>(b: Bag<E>, e: Option<E>)
    ensures forall x ::
              Occurrences(RemoveValue(b, e).0, x)
              == if x == e && Occurrences(b, e) > 0 then Occurrences(b, x) - 1 else Occurrences(b, x)
  {
  }

  /** The loop of `removeAll`: for each element of `xs` in order, remove its
      first live occurrence, if any. */
  function RemoveEach<E(==)>(b: Bag<E>, xs: seq<Option<E>>): (r: (Bag<E>, bool))
    ensures !r.1 ==> r.0 == b
    ensures r.0.size <= b.size
    ensures r.1 <==> r.0.size < b.size
    ensures Capacity(r.0) == Capacity(b)
    decreases |xs|
  {
    if xs == [] then
      (b, false)
    else
      var step := RemoveValue(b, xs[0]);
      var rest := RemoveEach(step.0, xs[1..]);
      if step.1 then
        assert rest.0.size <= step.0.size < b.size;
        (rest.0, true)
      else
        assert step.0 == b;
        (rest.0, rest.1)
  }

  /** `removeAll`'s loop removes exactly the multiset difference. */
  lemma {:induction false} RemoveEachIsDifference<E>(b: Bag<E>, xs: seq<Option<E>>)
    ensures multiset(Live(RemoveEach(b, xs).0)) == multiset(Live(b)) - multiset(xs)
    decreases |xs|
  {
    if xs != [] {
      RemoveEachIsDifference(RemoveValue(b, xs[0]).0, xs[1..]);
      RemoveEachStep(b, xs);
    }
  }

  /** One iteration of `removeAll`'s loop, given the rest of the loop. */
  lemma RemoveEachStep<E>(b: Bag<E>, xs: seq<Option<E>>)
    requires xs != []
    requires var step := RemoveValue(b, xs[0]).0;
      multiset(Live(RemoveEach(step, xs[1..]).0)) == multiset(Live(step)) - multiset(xs[1..])
    ensures multiset(Live(RemoveEach(b, xs).0)) == multiset(Live(b)) - multiset(xs)
  {
    var step := RemoveValue(b, xs[0]).0;
    var rest := RemoveEach(step, xs[1..]).0;
    UnfoldRemoveEach(b, xs);
    MultisetOfHeadTail(xs);
    DifferenceOfSum(multiset(Live(b)), multiset(Live(step)), multiset(Live(rest)),
                    multiset{xs[0]}, multiset(xs[1..]), multiset(xs));
  }

  lemma UnfoldRemoveEach<E>(b: Bag<E>, xs: seq<Option<E>>)
    requires xs != []
    ensures RemoveEach(b, xs).0 == RemoveEach(RemoveValue(b, xs[0]).0, xs[1..]).0
  {
  }

  lemma MultisetOfHeadTail<T>(xs: seq<T>)
    requires xs != []
    ensures multiset(xs) == multiset{xs[0]} + multiset(xs[1..])
  {
    assert xs == [xs[0]] + xs[1..];
  }

  /** `removeAll`'s loop reports a change exactly when some element of `xs`
      was live in the bag. */
  lemma {:induction false} RemoveEachReportsChange<E>(b: Bag<E>, xs: seq<Option<E>>)
    ensures RemoveEach(b, xs).1 <==> exists k :: 0 <= k < |xs| && Contains(b, xs[k])
    decreases |xs|
  {
    if xs != [] {
      var step := RemoveValue(b, xs[0]);
      RemoveEachReportsChange(step.0, xs[1..]);
      ContainedHeadTail(b, xs);
      assert RemoveEach(b, xs).1 == (step.1 || RemoveEach(step.0, xs[1..]).1);
    }
  }

  /** Some element of `xs` is live in `b` exactly when its head is or some
      element of its tail is. */
  lemma ContainedHeadTail<E>(b: Bag<E>, xs: seq<Option<E>>)
    requires xs != []
    ensures (exists k :: 0 <= k < |xs| && Contains(b, xs[k]))
            <==> Contains(b, xs[0]) || exists k :: 0 <= k < |xs[1..]| && Contains(b, xs[1..][k])
  {
    if exists k :: 0 <= k < |xs| && Contains(b, xs[k]) {
      var k :| 0 <= k < |xs| && Contains(b, xs[k]);
      if k > 0 {
        assert xs[1..][k - 1] == xs[k];
      }
    }
    if exists k :: 0 <= k < |xs[1..]| && Contains(b, xs[1..][k]) {
      var k :| 0 <= k < |xs[1..]| && Contains(b, xs[1..][k]);
      assert xs[k + 1] == xs[1..][k];
    }
  }

  /** Taking away `x` and then `tail` takes away `x + tail`. */
  lemma DifferenceOfSum<T>(a: multiset<T>, afterX: multiset<T>, afterTail: multiset<T>,
                           x: multiset<T>, tail: multiset<T>, all: multiset<T>)
    requires afterX == a - x && afterTail == afterX - tail && all == x + tail
    ensures afterTail == a - all
  {
  }

  /** `removeAll(other)`: rejects this bag itself before touching anything;
      otherwise removes one live occurrence per element of `other` and
      reports whether anything was removed. */
  function RemoveAll<E(==)>(b: Bag<E>, other: BagArg<E>): (r: Outcome<(Bag<E>, bool)>)
    ensures other.ThisBag? <==> r.IllegalArgument?
    ensures other.OtherBag? ==>
      multiset(Live(r.value.0)) == multiset(Live(b)) - multiset(Live(other.bag))
    ensures other.OtherBag? ==>
      (r.value.1 <==> exists k :: 0 <= k < other.bag.size && Contains(b, other.bag.data[k]))
    ensures other.OtherBag? ==> (r.value.1 <==> r.value.0.size < b.size)
    ensures other.OtherBag? ==> Capacity(r.value.0) == Capacity(b)
  {
    match other
    case ThisBag => IllegalArgument("removeAll doesn't support from itself to itself")
    case OtherBag(o) =>
      RemoveEachOfLive(b, o);
      Done(RemoveEach(b, Live(o)))
  }

  /** `removeAll`'s loop run over the live elements of another bag, stated
      in terms of that bag's slots. */
  lemma RemoveEachOfLive<E>(b: Bag<E>, o: Bag<E>)
    ensures multiset(Live(RemoveEach(b, Live(o)).0)) == multiset(Live(b)) - multiset(Live(o))
    ensures RemoveEach(b, Live(o)).1 <==> exists k :: 0 <= k < o.size && Contains(b, o.data[k])
  {
    RemoveEachIsDifference(b, Live(o));
    RemoveEachReportsChange(b, Live(o));
    ContainedLive(b, o);
  }

  lemma ContainedLive<E>(b: Bag<E>, o: Bag<E>)
    ensures (exists k :: 0 <= k < |Live(o)| && Contains(b, Live(o)[k]))
            <==> exists k :: 0 <= k < o.size && Contains(b, o.data[k])
  {
    var xs := Live(o);
    if exists k :: 0 <= k < |xs| && Contains(b, xs[k]) {
      var k :| 0 <= k < |xs| && Contains(b, xs[k]);
      assert o.data[k] == xs[k];
    }
    if exists k :: 0 <= k < o.size && Contains(b, o.data[k]) {
      var k :| 0 <= k < o.size && Contains(b, o.data[k]);
      assert xs[k] == o.data[k];
    }
  }

  /** The loop of `addAll`: `add` each element of `xs` in order. */
  function AddEach<E>(b: Bag<E>, xs: seq<Option<E>>): (r: Bag<E>)
    ensures Live(r) == Live(b) + xs
    ensures Capacity(r) >= Capacity(b)
    decreases |xs|
  {
    if xs == [] then b
    else
      var r := AddEach(Add(b, xs[0]), xs[1..]);
      assert xs == [xs[0]] + xs[1..];
      r
  }

  /** `addAll(other)`: rejects this bag itself; otherwise appends the live
      elements of `other` in order. */
  function AddAll<E>(b: Bag<E>, other: BagArg<E>): (r: Outcome<Bag<E>>)
    ensures other.ThisBag? <==> r.IllegalArgument?
    ensures other.OtherBag? ==> Live(r.value) == Live(b) + Live(other.bag)
    ensures other.OtherBag? ==> r.value.size == b.size + other.bag.size
    ensures other.OtherBag? ==> Capacity(r.value) >= Capacity(b)
  {
    match other
    case ThisBag => IllegalArgument("addAll doesn't support from itself to itself")
    case OtherBag(o) => Done(AddEach(b, Live(o)))
  }

  /** `clear()`: null the live slots and reset `size`; the capacity and any
      stale slots above the old size are kept. */
  function Clear<E>(b: Bag<E>): (r: Bag<E>)
    ensures IsEmpty(r) && Capacity(r) == Capacity(b)
    ensures forall i :: 0 <= i < b.size ==> r.data[i] == None
    ensures forall i :: b.size <= i < Capacity(b) ==> r.data[i] == b.data[i]
  {
    BagRep(seq(|b.data|, i requires 0 <= i < |b.data| => if i < b.size then None else b.data[i]), 0)
  }

  /// Properties relating several operations

  /** `add` followed by `removeLast` hands back the added element and the
      original live contents. */
  lemma RemoveLastUndoesAdd<E>(b: Bag<E>, e: Option<E>)
    ensures RemoveLast(Add(b, e)).1 == e
    ensures Live(RemoveLast(Add(b, e)).0) == Live(b)
  {
    var a := Add(b, e);
    assert Live(a)[a.size - 1] == e;
    assert Live(a)[..a.size - 1] == Live(b);
  }

  /** `add(X); add(Y)` then two `removeLast`s yields `Y`, then `X`, and an
      empty bag. */
  lemma RemoveLastIsLifo<E>(b: Bag<E>, x: Option<E>, y: Option<E>)
    requires IsEmpty(b)
    ensures var r1 := RemoveLast(Add(Add(b, x), y));
            var r2 := RemoveLast(r1.0);
            r1.1 == y && r2.1 == x && IsEmpty(r2.0)
  {
    RemoveLastUndoesAdd(Add(b, x), y);
    RemoveLastUndoesAdd(b, x);
  }

  /** `set(capacity - 1, x)` followed by `removeLast()` leaves a bag of size
      `capacity - 1`, which is not empty although only one element was ever
      stored. */
  lemma SetThenRemoveLastLeavesHole<E>(b: Bag<E>, x: Option<E>)
    requires IsEmpty(b) && Capacity(b) >= 2
    ensures var r := RemoveLast(Set(b, Capacity(b) - 1, x)).0;
            r.size == Capacity(b) - 1 && !IsEmpty(r)
  {
  }

  /** `set(5, x); set(2, y)` shrinks the size to 3 and keeps `x` in slot 5. */
  lemma SetCanShrinkSize<E>(b: Bag<E>, x: Option<E>, y: Option<E>)
    ensures var r := Set(Set(b, 5, x), 2, y);
            r.size == 3 && Get(r, 5) == x && Get(r, 2) == y
  {
  }

  /** `n` successive `removeLast`s, with the removed values in call order. */
  function RemoveLastN<E>(b: Bag<E>, n: nat): (r: (Bag<E>, seq<Option<E>>))
    ensures |r.1| == n
    decreases n
  {
    if n == 0 then (b, [])
    else
      var first := RemoveLast(b);
      var rest := RemoveLastN(first.0, n - 1);
      (rest.0, [first.1] + rest.1)
  }

  function Reverse<T>(s: seq<T>): (r: seq<T>)
    ensures |r| == |s|
  {
    if s == [] then [] else [s[|s| - 1]] + Reverse(s[..|s| - 1])
  }

  /** Draining a bag with `size` calls of `removeLast` returns its live
      elements last-first and leaves it empty; one more call returns null. */
  lemma {:induction false} DrainReturnsReverse<E>(b: Bag<E>)
    ensures RemoveLastN(b, b.size).1 == Reverse(Live(b))
    ensures IsEmpty(RemoveLastN(b, b.size).0)
    ensures RemoveLast(RemoveLastN(b, b.size).0).1 == None
    decreases b.size
  {
    if b.size > 0 {
      var first := RemoveLast(b);
      assert first.0.size == b.size - 1;
      DrainReturnsReverse(first.0);
      assert Live(first.0) == Live(b)[..b.size - 1];
      assert first.1 == Live(b)[b.size - 1];
    }
  }

  /** Filling a bag with `add`s and then draining it returns the added
      values in reverse order. */
  lemma AddsThenDrain<E>(b: Bag<E>, xs: seq<Option<E>>)
    requires IsEmpty(b)
    ensures var full := AddEach(b, xs);
            full.size == |xs| && RemoveLastN(full, |xs|).1 == Reverse(xs)
            && IsEmpty(RemoveLastN(full, |xs|).0)
  {
    var full := AddEach(b, xs);
    assert Live(full) == xs;
    DrainReturnsReverse(full);
  }

  /** `n` `add`s into an empty bag read back in order through `get`. */
  lemma AddsReadBackInOrder<E>(b: Bag<E>, xs: seq<Option<E>>)
    requires IsEmpty(b)
    ensures var full := AddEach(b, xs);
            full.size == |xs| && forall i :: 0 <= i < |xs| ==> Get(full, i) == xs[i]
  {
    var full := AddEach(b, xs);
    assert Live(full) == xs;
    forall i | 0 <= i < |xs| ensures Get(full, i) == xs[i] {
      assert Live(full)[i] == full.data[i];
    }
  }

  /// Runs of bag operations

  /** One mutating call on a bag. `RemoveAtOp` is `remove(int)`; the bag
      arguments of `addAll` and `removeAll` may be the bag itself. */
  datatype BagOp<E> =
    | AddOp(e: Option<E>)
    | SetOp(index: nat, e: Option<E>)
    | RemoveLastOp
    | RemoveAtOp(index: nat)
    | RemoveValueOp(e: Option<E>)
    | AddAllOp(other: BagArg<E>)
    | RemoveAllOp(other: BagArg<E>)
    | EnsureCapacityOp(index: nat)
    | ClearOp

  /** Whether the call throws: `remove(int)` past the backing array or on an
      empty bag, and `addAll`/`removeAll` given the bag itself. */
  predicate Throws<E>(b: Bag<E>, op: BagOp<E>) {
    match op
    case RemoveAtOp(i) => !(i < Capacity(b) && b.size > 0)
    case AddAllOp(other) => other.ThisBag?
    case RemoveAllOp(other) => other.ThisBag?
    case _ => false
  }

  /** The bag after one call, or `None` when the call throws. */
  function Step<E(==)>(b: Bag<E>, op: BagOp<E>): (r: Option<Bag<E>>)
    ensures r.None? <==> Throws(b, op)
  {
    match op
    case AddOp(e) => Some(Add(b, e))
    case SetOp(i, e) => Some(Set(b, i, e))
    case RemoveLastOp => Some(RemoveLast(b).0)
    case RemoveAtOp(i) => if i < Capacity(b) && b.size > 0 then Some(RemoveAt(b, i).0) else None
    case RemoveValueOp(e) => Some(RemoveValue(b, e).0)
    case AddAllOp(other) => if other.ThisBag? then None else Some(AddAll(b, other).value)
    case RemoveAllOp(other) => if other.ThisBag? then None else Some(RemoveAll(b, other).value.0)
    case EnsureCapacityOp(i) => Some(EnsureCapacity(b, i))
    case ClearOp => Some(Clear(b))
  }

  /** No call shrinks the backing array, and `set` and `ensureCapacity`
      leave their index inside it. */
  lemma StepKeepsCapacity<E>(b: Bag<E>, op: BagOp<E>)
    requires !Throws(b, op)
    ensures Capacity(Step(b, op).value) >= Capacity(b)
    ensures (op.SetOp? || op.EnsureCapacityOp?) ==> op.index < Capacity(Step(b, op).value)
  {
    match op
    case AddOp(e) =>
    case SetOp(i, e) =>
    case RemoveLastOp =>
    case RemoveAtOp(i) =>
    case RemoveValueOp(e) =>
    case AddAllOp(other) =>
    case RemoveAllOp(other) =>
    case EnsureCapacityOp(i) =>
    case ClearOp =>
  }

  /** The bag after applying `ops` in order, or `None` once a call throws. */
  function Run<E(==)>(b: Bag<E>, ops: seq<BagOp<E>>): Option<Bag<E>>
    decreases |ops|
  {
    if ops == [] then Some(b)
    else
      var before := Run(b, ops[..|ops| - 1]);
      if before.None? then None else Step(before.value, ops[|ops| - 1])
  }

  /** Capacity never decreases over a run that completes, and every index
      passed to `set` or `ensureCapacity` ends up inside the backing array. */
  lemma {:induction false} CapacityNeverShrinks<E>(b: Bag<E>, ops: seq<BagOp<E>>)
    ensures Run(b, ops).Some? ==> Capacity(Run(b, ops).value) >= Capacity(b)
    ensures Run(b, ops).Some? ==>
      forall k :: 0 <= k < |ops| && (ops[k].SetOp? || ops[k].EnsureCapacityOp?) ==>
        ops[k].index < Capacity(Run(b, ops).value)
    decreases |ops|
  {
    if ops != [] && Run(b, ops).Some? {
      var init := ops[..|ops| - 1];
      var before := Run(b, init);
      assert before.Some?;
      CapacityNeverShrinks(b, init);
      StepKeepsCapacity(before.value, ops[|ops| - 1]);
      assert forall k :: 0 <= k < |init| ==> ops[k] == init[k];
    }
  }

  /** Position of the last `set` in `ops`, or -1. */
  function LastSet<E>(ops: seq<BagOp<E>>): (p: int)
    ensures -1 <= p < |ops|
    ensures p >= 0 ==> ops[p].SetOp?
    ensures forall k :: p < k < |ops| ==> !ops[k].SetOp?
  {
    if ops == [] then -1
    else if ops[|ops| - 1].SetOp? then |ops| - 1
    else LastSet(ops[..|ops| - 1])
  }

  /** Over a run of `add`s and `set`s, the size is one more than the index of
      the last `set` plus the `add`s after it; with no `set` it is the
      starting size plus the number of `add`s. */
  lemma {:induction false} SizeIsHighWaterMark<E>(b: Bag<E>, ops: seq<BagOp<E>>)
    requires forall k :: 0 <= k < |ops| ==> ops[k].AddOp? || ops[k].SetOp?
    ensures Run(b, ops).Some?
    ensures var p := LastSet(ops);
            Run(b, ops).value.size ==
              if p < 0 then b.size + |ops| else ops[p].index + 1 + (|ops| - 1 - p)
    decreases |ops|
  {
    if ops != [] {
      var init := ops[..|ops| - 1];
      assert forall k :: 0 <= k < |init| ==> init[k] == ops[k];
      SizeIsHighWaterMark(b, init);
    }
  }
}
