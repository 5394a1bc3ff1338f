/**
 * The component bag of one entity: the Python list `self.entities[entity]`
 * of compynent.py, an ordered, duplicate-tolerant list of components that
 * every lookup scans front to back, matching on `type(component) == component_type`.
 */
module Bags {
  import opened Wrappers

  /** A Python class object used as a component type; classes compare by identity. */
  type TypeTag = nat

  /**
   * A component instance: its runtime class, and an identity standing for
   * the object itself (components are assumed to use identity equality).
   */
  datatype Component = Component(kind: TypeTag, ident: nat)

  /** The list `types_present` that `has_component` builds: the type of each component, in bag order. */
  function TypesOf(bag: seq<Component>): (r: seq<TypeTag>)
    ensures |r| == |bag|
    ensures forall i :: 0 <= i < |bag| ==> r[i] == bag[i].kind
  {
    if bag == [] then [] else [bag[0].kind] + TypesOf(bag[1..])
  }

  /** True iff some component of the bag has type `t`. */
  predicate HasType(bag: seq<Component>, t: TypeTag)
  {
    t in TypesOf(bag)
  }

  /**
   * The position of the first component of type `t`, scanning in bag order,
   * or None when no component has that type.
   */
  function FindType(bag: seq<Component>, t: TypeTag): (r: Option<nat>)
    ensures r.Some? ==> r.value < |bag| && bag[r.value].kind == t
    ensures r.Some? ==> forall j :: 0 <= j < r.value ==> bag[j].kind != t
    ensures r.None? <==> !HasType(bag, t)
  {
    if bag == [] then None
    else if bag[0].kind == t then Some(0)
    else match FindType(bag[1..], t)
      case None => None
      case Some(i) => Some(i + 1)
  }

  /** What `get_component` returns for a bag: the first component of type `t`, or None. */
  function FirstOfType(bag: seq<Component>, t: TypeTag): (r: Option<Component>)
    ensures r.None? <==> forall j :: 0 <= j < |bag| ==> bag[j].kind != t
    ensures r.Some? ==> r.value.kind == t && r.value in bag
    ensures forall i :: 0 <= i < |bag| && bag[i].kind == t && (forall k :: 0 <= k < i ==> bag[k].kind != t) ==>
      r == Some(bag[i])
  {
    match FindType(bag, t)
    case None =>
      assert forall j :: 0 <= j < |bag| ==> TypesOf(bag)[j] == bag[j].kind;
      None
    case Some(i) =>
      assert forall i' :: 0 <= i' < |bag| && bag[i'].kind == t && (forall k :: 0 <= k < i' ==> bag[k].kind != t) ==> i' == i;
      Some(bag[i])
  }

  /**
   * The bag `remove_component` leaves behind: the first component of type `t`
   * taken out, the others kept in order; the bag itself when none matches
   * (see RemoveFirstOfTypeCuts).
   */
  function RemoveFirstOfType(bag: seq<Component>, t: TypeTag): seq<Component>
  {
    if bag == [] then []
    else if bag[0].kind == t then bag[1..]
    else [bag[0]] + RemoveFirstOfType(bag[1..], t)
  }

  /**
   * What `remove_component` does to a bag: nothing when no component has type
   * `t`, otherwise it cuts out exactly the position of the first match.
   */
  lemma {:induction false} RemoveFirstOfTypeCuts(bag: seq<Component>, t: TypeTag)
    ensures FindType(bag, t).None? ==> RemoveFirstOfType(bag, t) == bag
    ensures FindType(bag, t).Some? ==>
      var i := FindType(bag, t).value; RemoveFirstOfType(bag, t) == bag[..i] + bag[i + 1..]
  {
    if bag != [] && bag[0].kind != t {
      RemoveFirstOfTypeCuts(bag[1..], t);
      match FindType(bag[1..], t)
      case Some(j) =>
        assert FindType(bag, t) == Some(j + 1);
        SpliceCons(bag, j);
      case None =>
        assert FindType(bag, t) == None;
        assert [bag[0]] + bag[1..] == bag;
    }
  }

  /** Cutting position `i` out of the tail and putting the head back cuts position `i + 1` out of the whole. */
  lemma SpliceCons(bag: seq<Component>, i: nat)
    requires i + 1 < |bag|
    ensures [bag[0]] + (bag[1..][..i] + bag[1..][i + 1..]) == bag[..i + 1] + bag[i + 2..]
  {
    assert bag[1..][..i] == bag[1..i + 1];
    assert bag[1..][i + 1..] == bag[i + 2..];
    assert [bag[0]] + bag[1..i + 1] == bag[..i + 1];
  }

  /**
   * Python's `list.remove(x)`: drops the first element equal to `x`
   * (`x` must be present, otherwise Python raises ValueError).
   */
  function ListRemove(xs: seq<Component>, x: Component): (r: seq<Component>)
    requires x in xs
    ensures |r| == |xs| - 1
    ensures multiset(r) == multiset(xs) - multiset{x}
  {
    if xs[0] == x then
      assert xs == [xs[0]] + xs[1..];
      xs[1..]
    else
      assert xs == [xs[0]] + xs[1..];
      [xs[0]] + ListRemove(xs[1..], x)
  }

  /**
   * `list.remove(x)` cuts out the first occurrence of `x` and keeps every
   * other element in its order.
   */
  lemma {:induction false} ListRemoveCutsFirst(xs: seq<Component>, x: Component, i: nat)
    requires i < |xs| && xs[i] == x
    requires forall k :: 0 <= k < i ==> xs[k] != x
    ensures x in xs
    ensures ListRemove(xs, x) == xs[..i] + xs[i + 1..]
  {
    if i == 0 {
      assert xs[..0] + xs[1..] == xs[1..];
    } else {
      assert xs[0] != x && xs[1..][i - 1] == x;
      ListRemoveCutsFirst(xs[1..], x, i - 1);
      assert ListRemove(xs, x) == [xs[0]] + ListRemove(xs[1..], x);
      SpliceCons(xs, i - 1);
    }
  }


  /** Conversely, a component of type `t` with none before it is the one `FindType` reports. */
  lemma {:induction false} FindTypeAt(bag: seq<Component>, t: TypeTag, i: nat)
    requires i < |bag| && bag[i].kind == t
    requires forall k :: 0 <= k < i ==> bag[k].kind != t
    ensures FindType(bag, t) == Some(i)
  {
    if i > 0 {
      FindTypeAt(bag[1..], t, i - 1);
    }
  }

  /** Conversely, a bag with no component of type `t` has no match for `t`. */
  lemma {:induction false} FindTypeAbsent(bag: seq<Component>, t: TypeTag)
    requires forall k :: 0 <= k < |bag| ==> bag[k].kind != t
    ensures FindType(bag, t) == None
  {
    if bag != [] {
      FindTypeAbsent(bag[1..], t);
    }
  }

  /** `has_component`'s answer: every requested type occurs among the bag's types. */
  function HasAll(bag: seq<Component>, types: seq<TypeTag>): (r: bool)
    ensures r <==> forall k :: 0 <= k < |types| ==> exists i :: 0 <= i < |bag| && bag[i].kind == types[k]
  {
    forall k :: 0 <= k < |types| ==> HasType(bag, types[k])
  }

  /**
   * `remove_component` locates the first type match and then calls
   * `list.remove` on that very object; with components compared by identity,
   * the element `list.remove` drops is exactly that first type match.
   */
  lemma {:induction false} ListRemoveIsRemoveFirstOfType(bag: seq<Component>, t: TypeTag, i: nat)
    requires i < |bag| && bag[i].kind == t
    requires forall k :: 0 <= k < i ==> bag[k].kind != t
    ensures bag[i] in bag
    ensures ListRemove(bag, bag[i]) == RemoveFirstOfType(bag, t)
  {
    if i > 0 {
      assert bag[0] != bag[i] && bag[1..][i - 1] == bag[i];
      ListRemoveIsRemoveFirstOfType(bag[1..], t, i - 1);
      assert ListRemove(bag, bag[i]) == [bag[0]] + ListRemove(bag[1..], bag[i]);
      assert RemoveFirstOfType(bag, t) == [bag[0]] + RemoveFirstOfType(bag[1..], t);
    }
  }

  /**
   * After `add_component(e, c)`: the bag has type `c.kind`, every type list it
   * satisfied before it still satisfies, and `get_component(e, c.kind)` returns
   * the earlier first component of that type if there is one, otherwise `c`.
   */
  lemma {:induction false} AddThenQuery(bag: seq<Component>, c: Component, types: seq<TypeTag>)
    ensures HasAll(bag + [c], [c.kind])
    ensures HasAll(bag, types) ==> HasAll(bag + [c], types)
    ensures FirstOfType(bag + [c], c.kind) ==
      if HasType(bag, c.kind) then FirstOfType(bag, c.kind) else Some(c)
  {
    var grown := bag + [c];
    assert TypesOf(grown)[|bag|] == c.kind;
    assert HasType(grown, c.kind);
    forall k | 0 <= k < |types| && HasType(bag, types[k])
      ensures HasType(grown, types[k])
    {
      var j :| 0 <= j < |bag| && TypesOf(bag)[j] == types[k];
      assert TypesOf(grown)[j] == types[k];
    }
    FindTypeOfAppend(bag, c, c.kind);
  }

  /** Appending a component moves no earlier first match. */
  lemma {:induction false} FindTypeOfAppend(bag: seq<Component>, c: Component, t: TypeTag)
    ensures FindType(bag + [c], t) ==
      if HasType(bag, t) then FindType(bag, t)
      else if c.kind == t then Some(|bag|) else None
  {
    if bag != [] {
      assert (bag + [c])[1..] == bag[1..] + [c];
      FindTypeOfAppend(bag[1..], c, t);
      assert TypesOf(bag) == [bag[0].kind] + TypesOf(bag[1..]);
    } else {
      assert TypesOf([c]) == [c.kind];
    }
  }

  /**
   * After `remove_component(e, t)`, `get_component(e, t)` finds the next
   * component of type `t` after the removed one, if there is one.
   */
  lemma {:induction false} FindAfterRemove(bag: seq<Component>, t: TypeTag)
    requires FindType(bag, t).Some?
    ensures
      var i := FindType(bag, t).value;
      FindType(RemoveFirstOfType(bag, t), t) ==
        match FindType(bag[i + 1..], t)
        case None => None
        case Some(j) => Some(i + j)
  {
    var i := FindType(bag, t).value;
    RemoveFirstOfTypeCuts(bag, t);
    FindTypeOfConcat(bag[..i], bag[i + 1..], t);
  }

  /** A first match in a concatenation whose left part has no match lies in the right part. */
  lemma {:induction false} FindTypeOfConcat(a: seq<Component>, b: seq<Component>, t: TypeTag)
    requires forall j :: 0 <= j < |a| ==> a[j].kind != t
    ensures FindType(a + b, t) ==
      match FindType(b, t)
      case None => None
      case Some(j) => Some(|a| + j)
  {
    if a != [] {
      assert (a + b)[0] == a[0] && a[0].kind != t;
      assert (a + b)[1..] == a[1..] + b;
      FindTypeOfConcat(a[1..], b, t);
    } else {
      assert a + b == b;
    }
  }

  /**
   * Removing the first component of type `t` leaves every other type's
   * lookup untouched, so `has_component` over types other than `t` keeps its answer.
   */
  lemma {:induction false} RemoveKeepsOtherTypes(bag: seq<Component>, t: TypeTag, u: TypeTag, types: seq<TypeTag>)
    requires u != t
    requires forall k :: 0 <= k < |types| ==> types[k] != t
    ensures FirstOfType(RemoveFirstOfType(bag, t), u) == FirstOfType(bag, u)
    ensures HasAll(RemoveFirstOfType(bag, t), types) <==> HasAll(bag, types)
  {
    FindTypeAfterRemoveOther(bag, t, u);
    forall k | 0 <= k < |types|
      ensures HasType(RemoveFirstOfType(bag, t), types[k]) <==> HasType(bag, types[k])
    {
      FindTypeAfterRemoveOther(bag, t, types[k]);
    }
  }

  /** The lookup of another type is not moved by removing the first match of `t`. */
  lemma {:induction false} FindTypeAfterRemoveOther(bag: seq<Component>, t: TypeTag, u: TypeTag)
    requires u != t
    ensures FirstOfType(RemoveFirstOfType(bag, t), u) == FirstOfType(bag, u)
    ensures FindType(RemoveFirstOfType(bag, t), u).Some? <==> FindType(bag, u).Some?
  {
    if bag != [] {
      assert [bag[0]] + bag[1..] == bag;
      LookupCons(bag[0], bag[1..], u);
      if bag[0].kind == t {
        assert RemoveFirstOfType(bag, t) == bag[1..];
      } else {
        var rest := RemoveFirstOfType(bag[1..], t);
        FindTypeAfterRemoveOther(bag[1..], t, u);
        assert RemoveFirstOfType(bag, t) == [bag[0]] + rest;
        LookupCons(bag[0], rest, u);
      }
    }
  }

  /** Looking a type up in `[x] + s`: `x` itself when it has that type, otherwise the lookup in `s`. */
  lemma LookupCons(x: Component, s: seq<Component>, u: TypeTag)
    ensures FirstOfType([x] + s, u) == if x.kind == u then Some(x) else FirstOfType(s, u)
    ensures FindType([x] + s, u).Some? <==> x.kind == u || FindType(s, u).Some?
  {
    assert ([x] + s)[0] == x && ([x] + s)[1..] == s;
    if x.kind != u {
      match FindType(s, u)
      case None =>
      case Some(j) =>
        assert ([x] + s)[j + 1] == s[j];
    }
  }

  /**
   * `has_component` and `get_component` agree: the bag has every requested
   * type exactly when `get_component` would return a component for each.
   */
  lemma HasAllIffEachFound(bag: seq<Component>, types: seq<TypeTag>)
    ensures HasAll(bag, types) <==> forall k :: 0 <= k < |types| ==> FirstOfType(bag, types[k]).Some?
  {
  }
}
