/** The component-type registry: an append-only map from a component class
    to a small, monotonically assigned index.

    The Java class keeps this as static state (a static counter and a static
    map); here it is an explicit `Registry` value threaded through calls. */
module ComponentTypes {

  /** A component class, identified by its fully qualified name. */
  type ClassName = string

  datatype ComponentType = ComponentType(index: nat, componentClass: ClassName)

  /** `types` is the class-to-type map, `next` the static counter. */
  datatype Registry = Registry(types: map<ClassName, ComponentType>, next: nat)

  /** The state before any lookup: an empty map and a counter at 0. */
  function EmptyRegistry(): Registry {
    Registry(map[], 0)
  }

  /** The registry invariant: one entry per class, naming that class; the
      indices are distinct, all below the counter, and there are exactly as
      many entries as the counter says (so the indices are 0 .. next-1). */
  ghost predicate Valid(reg: Registry) {
    && |reg.types| == reg.next
    && (forall c :: c in reg.types ==> reg.types[c].componentClass == c && reg.types[c].index < reg.next)
    && (forall c1, c2 :: c1 in reg.types && c2 in reg.types && c1 != c2 ==>
          reg.types[c1].index != reg.types[c2].index)
  }

  /** `getTypeFor(c)`: the existing entry for `c`, or a new entry with the
      current counter as its index, after which the counter moves on by one. */
  function GetTypeFor(reg: Registry, c: ClassName): (r: (Registry, ComponentType))
    ensures Valid(reg) ==> r.1.componentClass == c
    ensures c in r.0.types && r.0.types[c] == r.1
    ensures c in reg.types ==> r == (reg, reg.types[c])
    ensures c !in reg.types ==>
      r.1.index == reg.next && r.0.next == reg.next + 1 && r.0.types == reg.types[c := r.1]
    ensures Valid(reg) ==> Valid(r.0)
  {
    if c in reg.types then
      (reg, reg.types[c])
    else
      var t := ComponentType(reg.next, c);
      var r := Registry(reg.types[c := t], reg.next + 1);
      assert Valid(reg) ==> Valid(r) by {
        if Valid(reg) {
          assert r.types.Keys == reg.types.Keys + {c};
        }
      }
      (r, t)
  }

  /** `getIndexFor(c)`: shorthand for the index of `getTypeFor(c)`. */
  function GetIndexFor(reg: Registry, c: ClassName): (r: (Registry, nat))
    ensures c in r.0.types && r.0.types[c].index == r.1
    ensures c in reg.types ==> r == (reg, reg.types[c].index)
    ensures c !in reg.types ==> r.1 == reg.next && r.0.next == reg.next + 1
  {
    var (reg', t) := GetTypeFor(reg, c);
    (reg', t.index)
  }

  /** A second lookup of the same class returns the same entry and leaves the
      registry as the first lookup left it. */
  lemma GetTypeForIsIdempotent(reg: Registry, c: ClassName)
    ensures var first := GetTypeFor(reg, c);
            GetTypeFor(first.0, c) == first
  {
  }

  /** Two distinct classes looked up one after the other never share an
      index, and the first keeps its entry. */
  lemma DistinctClassesGetDistinctIndices(reg: Registry, c1: ClassName, c2: ClassName)
    requires Valid(reg) && c1 != c2
    ensures var first := GetTypeFor(reg, c1);
            var second := GetTypeFor(first.0, c2);
            first.1.index != second.1.index && GetTypeFor(second.0, c1).1 == first.1
  {
  }

  /** The registry after looking up each class of `cs` in order. */
  function LookUpAll(reg: Registry, cs: seq<ClassName>): Registry
    decreases |cs|
  {
    if cs == [] then reg else LookUpAll(GetTypeFor(reg, cs[0]).0, cs[1..])
  }

  /** Any run of lookups keeps the registry valid. */
  lemma {:induction false} LookUpAllStaysValid(reg: Registry, cs: seq<ClassName>)
    requires Valid(reg)
    ensures Valid(LookUpAll(reg, cs))
    decreases |cs|
  {
    if cs != [] {
      LookUpAllStaysValid(GetTypeFor(reg, cs[0]).0, cs[1..]);
    }
  }

  /** Any run of lookups registers exactly the classes it saw and leaves the
      earlier entries alone. */
  lemma {:induction false} LookUpAllRegistersSeen(reg: Registry, cs: seq<ClassName>)
    ensures LookUpAll(reg, cs).types.Keys == reg.types.Keys + (set c | c in cs)
    ensures forall c :: c in reg.types ==> LookUpAll(reg, cs).types[c] == reg.types[c]
    decreases |cs|
  {
    if cs != [] {
      var reg' := GetTypeFor(reg, cs[0]).0;
      LookUpAllRegistersSeen(reg', cs[1..]);
      ElementsOfHeadTail(cs);
      assert reg'.types.Keys == reg.types.Keys + {cs[0]};
    }
  }

  lemma ElementsOfHeadTail<T>(s: seq<T>)
    requires s != []
    ensures (set x | x in s) == {s[0]} + (set x | x in s[1..])
  {
    assert s == [s[0]] + s[1..];
  }

  /** Starting from the empty registry, the number of registered classes is
      the counter, and every index handed out is below it. */
  lemma CounterCountsClasses(cs: seq<ClassName>)
    ensures var reg := LookUpAll(EmptyRegistry(), cs);
            reg.next == |set c | c in cs|
            && forall c :: c in reg.types ==> reg.types[c].index < reg.next
  {
    LookUpAllStaysValid(EmptyRegistry(), cs);
    LookUpAllRegistersSeen(EmptyRegistry(), cs);
    var reg := LookUpAll(EmptyRegistry(), cs);
    assert reg.types.Keys == set c | c in cs;
    assert |reg.types| == |reg.types.Keys|;
  }
}
