/**
 * The `EntityManager` of compynent.py: a registry from integer entity ids to
 * component bags, ids drawn from a counter shared by every manager, and a
 * list of systems called once per frame.
 */
module Compynent {
  import opened Wrappers
  import opened Bags

  /** Python's `KeyError`, raised when an operation indexes `self.entities` with an unknown id. */
  datatype Error = KeyError(entity: int)

  /** An opaque handle for a system callable registered with `add_system`. */
  type SystemId = nat

  /** One call `function(*data)` that `do_frame` makes. */
  datatype Call = Call(system: SystemId, data: seq<int>)

  predicate NoDuplicates(s: seq<int>)
  {
    forall i, j :: 0 <= i < j < |s| ==> s[i] != s[j]
  }

  /** `a` is `b` with some elements left out and the rest kept in order. */
  predicate IsSubsequence(a: seq<int>, b: seq<int>)
    decreases |b|
  {
    if a == [] then true
    else if b == [] then false
    else if a[|a| - 1] == b[|b| - 1] then IsSubsequence(a[..|a| - 1], b[..|b| - 1])
    else IsSubsequence(a, b[..|b| - 1])
  }

  /**
   * The key order of a Python dict after `d[k] = v`: an existing key keeps
   * its place, a new key goes last.
   */
  function KeysAfterAssign(keys: seq<int>, k: int): (r: seq<int>)
    ensures forall x :: x in r <==> x in keys || x == k
    ensures NoDuplicates(keys) ==> NoDuplicates(r)
    ensures IsSubsequence(keys, r)
    ensures keys <= r
    ensures k !in keys ==> |r| == |keys| + 1 && r[|keys|] == k
  {
    SubsequenceOfSelf(keys);
    if k in keys then keys
    else
      assert (keys + [k])[..|keys|] == keys;
      NoDuplicatesSnoc(keys, k);
      keys + [k]
  }

  /** The key order of a Python dict after `del d[x]`: the other keys keep their order. */
  function KeysAfterDelete(keys: seq<int>, x: int): (r: seq<int>)
    ensures forall y :: y in r <==> y in keys && y != x
    ensures NoDuplicates(keys) ==> NoDuplicates(r)
    ensures IsSubsequence(r, keys)
    decreases |keys|
  {
    if keys == [] then []
    else
      var init, last := keys[..|keys| - 1], keys[|keys| - 1];
      assert keys == init + [last];
      var rest := KeysAfterDelete(init, x);
      NoDuplicatesSnoc(init, last);
      if last == x then
        SubsequenceOfPrefix(rest, init, last);
        rest
      else
        assert (rest + [last])[..|rest|] == rest;
        NoDuplicatesSnoc(rest, last);
        rest + [last]
  }

  lemma {:induction false} SubsequenceOfSelf(s: seq<int>)
    ensures IsSubsequence(s, s)
    decreases |s|
  {
    if s != [] {
      SubsequenceOfSelf(s[..|s| - 1]);
    }
  }

  lemma {:induction false} SubsequenceOfPrefix(a: seq<int>, b: seq<int>, x: int)
    requires IsSubsequence(a, b)
    ensures IsSubsequence(a, b + [x])
    decreases |a| + |b|, 1
  {
    if a != [] {
      assert (b + [x])[..|b|] == b;
      if a[|a| - 1] == x {
        assert b != [];
        if a[|a| - 1] == b[|b| - 1] {
          SubsequenceOfPrefix(a[..|a| - 1], b[..|b| - 1], b[|b| - 1]);
          assert b[..|b| - 1] + [b[|b| - 1]] == b;
          assert IsSubsequence(a[..|a| - 1], b);
        } else {
          SubsequenceOfPrefix(a, b[..|b| - 1], b[|b| - 1]);
          assert b[..|b| - 1] + [b[|b| - 1]] == b;
          ShortenSubsequence(a, b);
        }
      }
    }
  }

  /** Dropping the last element of a subsequence keeps it a subsequence. */
  lemma {:induction false} ShortenSubsequence(a: seq<int>, b: seq<int>)
    requires a != [] && IsSubsequence(a, b)
    ensures IsSubsequence(a[..|a| - 1], b)
    decreases |a| + |b|, 0
  {
    assert b != [];
    var a', b' := a[..|a| - 1], b[..|b| - 1];
    if a[|a| - 1] == b[|b| - 1] {
      SubsequenceOfPrefix(a', b', b[|b| - 1]);
      assert b' + [b[|b| - 1]] == b;
    } else {
      ShortenSubsequence(a, b');
      SubsequenceOfPrefix(a', b', b[|b| - 1]);
      assert b' + [b[|b| - 1]] == b;
    }
  }

  /**
   * What `get_entities_with_component(*types)` returns: the ids, in key order,
   * whose bag holds every requested type.
   */
  function Matching(keys: seq<int>, entities: map<int, seq<Component>>, types: seq<TypeTag>): (r: seq<int>)
    requires forall k :: k in keys ==> k in entities
    ensures forall e :: e in r <==> e in keys && HasAll(entities[e], types)
    ensures IsSubsequence(r, keys)
    ensures NoDuplicates(keys) ==> NoDuplicates(r)
    decreases |keys|
  {
    if keys == [] then []
    else
      var init, last := keys[..|keys| - 1], keys[|keys| - 1];
      assert keys == init + [last];
      NoDuplicatesSnoc(init, last);
      var rest := Matching(init, entities, types);
      assert forall e :: e in keys <==> e in init || e == last;
      if HasAll(entities[last], types) then
        assert (rest + [last])[..|rest|] == rest;
        NoDuplicatesSnoc(rest, last);
        rest + [last]
      else
        SubsequenceOfPrefix(rest, init, last);
        rest
  }

  /** Appending `x` keeps a list duplicate-free iff `x` was not in it. */
  lemma NoDuplicatesSnoc(s: seq<int>, x: int)
    ensures NoDuplicates(s + [x]) <==> NoDuplicates(s) && x !in s
  {
    assert forall i :: 0 <= i < |s| ==> (s + [x])[i] == s[i];
    assert (s + [x])[|s|] == x;
  }

  /**
   * The class attribute `EntityManager.number`: one counter for the whole
   * process, shared by every manager. `issued` records the ids handed out so far.
   */
  class Counter {
    var number: int
    ghost var issued: seq<int>

    ghost predicate Valid()
      reads this
    {
      number == |issued| && forall i :: 0 <= i < |issued| ==> issued[i] == i + 1
    }

    /** The attribute's initial value `number = 0`. */
    constructor ()
      ensures Valid() && number == 0 && issued == []
    {
      number := 0;
      issued := [];
    }

    /** `EntityManager.number += 1; unique_id = EntityManager.number`. */
    method Next() returns (id: int)
      requires Valid()
      modifies this
      ensures Valid()
      ensures id == old(number) + 1 && number == id
      ensures issued == old(issued) + [id]
      ensures forall k :: k in old(issued) ==> k < id
    {
      number := number + 1;
      id := number;
      issued := issued + [id];
    }
  }

  /** The ids a counter hands out are pairwise distinct and strictly increasing. */
  lemma IssuedIncreasing(c: Counter)
    requires c.Valid()
    ensures forall i, j :: 0 <= i < j < |c.issued| ==> 0 < c.issued[i] < c.issued[j]
  {
  }

  class EntityManager {
    /** `self.entities`: each live id and its component bag. */
    var entities: map<int, seq<Component>>
    /** The insertion order of `self.entities`' keys, as Python dicts keep it. */
    var keys: seq<int>
    /** `self.systems`, duplicates included. */
    var systems: seq<SystemId>
    /** The shared id counter, standing for the class attribute `EntityManager.number`. */
    const counter: Counter

    ghost predicate Valid()
      reads this
    {
      NoDuplicates(keys) && forall k :: k in keys <==> k in entities
    }

    /** `__init__`: no entities and no systems; ids come from the shared counter. */
    constructor (counter: Counter)
      ensures Valid()
      ensures entities == map[] && keys == [] && systems == []
      ensures this.counter == counter
    {
      entities := map[];
      keys := [];
      systems := [];
      this.counter := counter;
    }

    /**
     * `create_entity(*initial_components)`: takes the next id from the shared
     * counter, binds it to a bag holding the initial components in argument order.
     */
    method CreateEntity(initial: seq<Component>) returns (id: int)
      requires Valid() && counter.Valid()
      modifies this, counter
      ensures Valid() && counter.Valid()
      ensures id == old(counter.number) + 1 && counter.number == id
      ensures counter.issued == old(counter.issued) + [id]
      ensures forall k :: k in old(counter.issued) ==> k < id
      ensures (forall k :: k in old(entities) ==> k <= old(counter.number)) ==> id !in old(entities)
      ensures entities == old(entities)[id := initial]
      ensures keys == KeysAfterAssign(old(keys), id)
      ensures systems == old(systems)
    {
      id := counter.Next();
      keys := KeysAfterAssign(keys, id);
      entities := entities[id := []];
      for i := 0 to |initial|
        modifies this
        invariant entities == old(entities)[id := initial[..i]]
        invariant keys == KeysAfterAssign(old(keys), id) && systems == old(systems)
      {
        assert initial[..i + 1] == initial[..i] + [initial[i]];
        entities := entities[id := entities[id] + [initial[i]]];
      }
      assert initial[..|initial|] == initial;
    }

    /** `delete_entity(entity)`: `del self.entities[entity]`. */
    method DeleteEntity(e: int) returns (r: Outcome<Error>)
      requires Valid()
      modifies this
      ensures Valid()
      ensures r == if e in old(entities) then Pass else Fail(KeyError(e))
      ensures r.Pass? ==> entities == old(entities) - {e} && keys == KeysAfterDelete(old(keys), e)
      ensures r.Fail? ==> entities == old(entities) && keys == old(keys)
      ensures systems == old(systems)
    {
      if e !in entities {
        return Fail(KeyError(e));
      }
      entities := entities - {e};
      keys := KeysAfterDelete(keys, e);
      return Pass;
    }

    /** `get_entities()`: `list(self.entities)`, every live id once, in insertion order. */
    method GetEntities() returns (r: seq<int>)
      requires Valid()
      ensures r == keys
      ensures forall k :: k in r <==> k in entities
      ensures NoDuplicates(r)
    {
      r := keys;
    }

    /** `add_component(entity, component)`: appends to the entity's bag. */
    method AddComponent(e: int, c: Component) returns (r: Outcome<Error>)
      requires Valid()
      modifies this
      ensures Valid()
      ensures r == if e in old(entities) then Pass else Fail(KeyError(e))
      ensures r.Pass? ==> entities == old(entities)[e := old(entities)[e] + [c]]
      ensures r.Fail? ==> entities == old(entities)
      ensures keys == old(keys) && systems == old(systems)
    {
      if e !in entities {
        return Fail(KeyError(e));
      }
      entities := entities[e := entities[e] + [c]];
      return Pass;
    }

    /** `get_component(entity, component_type)`: the first component of that type, or None. */
    method GetComponent(e: int, t: TypeTag) returns (r: Result<Option<Component>, Error>)
      ensures e !in entities ==> r == Err(KeyError(e))
      ensures e in entities ==> r == Ok(FirstOfType(entities[e], t))
    {
      if e !in entities {
        return Err(KeyError(e));
      }
      var bag := entities[e];
      for i := 0 to |bag|
        invariant forall k :: 0 <= k < i ==> bag[k].kind != t
      {
        if bag[i].kind == t {
          return Ok(Some(bag[i]));
        }
      }
      return Ok(None);
    }

    /**
     * `remove_component(entity, component_type)`: finds the first component of
     * that type and `list.remove`s it; silently does nothing when none matches.
     */
    method RemoveComponent(e: int, t: TypeTag) returns (r: Outcome<Error>)
      requires Valid()
      modifies this
      ensures Valid()
      ensures r == if e in old(entities) then Pass else Fail(KeyError(e))
      ensures r.Pass? ==> entities == old(entities)[e := RemoveFirstOfType(old(entities)[e], t)]
      ensures r.Fail? ==> entities == old(entities)
      ensures keys == old(keys) && systems == old(systems)
    {
      if e !in entities {
        return Fail(KeyError(e));
      }
      var bag := entities[e];
      var i := 0;
      while i < |bag| && bag[i].kind != t
        invariant i <= |bag|
        invariant forall k :: 0 <= k < i ==> bag[k].kind != t
      {
        i := i + 1;
      }
      if i < |bag| {
        var remaining := ListRemove(bag, bag[i]);
        ListRemoveIsRemoveFirstOfType(bag, t, i);
        ghost var expected := old(entities)[e := RemoveFirstOfType(old(entities)[e], t)];
        entities := entities[e := remaining];
        assert entities == expected;
      } else {
        FindTypeAbsent(bag, t);
        RemoveFirstOfTypeCuts(bag, t);
        assert entities == old(entities)[e := bag];
      }
      return Pass;
    }

    /**
     * `has_component(entity, *component_types)`: collects the bag's types,
     * then checks each requested type against them.
     */
    method HasComponent(e: int, types: seq<TypeTag>) returns (r: Result<bool, Error>)
      ensures e !in entities ==> r == Err(KeyError(e))
      ensures e in entities ==> r == Ok(HasAll(entities[e], types))
    {
      if e !in entities {
        return Err(KeyError(e));
      }
      var bag := entities[e];
      var present: seq<TypeTag> := [];
      for i := 0 to |bag|
        invariant |present| == i
        invariant forall j :: 0 <= j < i ==> present[j] == bag[j].kind
      {
        present := present + [bag[i].kind];
      }
      assert present == TypesOf(bag);
      for k := 0 to |types|
        invariant forall m :: 0 <= m < k ==> HasType(bag, types[m])
      {
        if types[k] !in present {
          return Ok(false);
        }
      }
      return Ok(true);
    }

    /**
     * `clear_entity(entity)`: `self.entities[entity] = []`; an unknown id is
     * not an error, it becomes a live entity with an empty bag.
     */
    method ClearEntity(e: int)
      requires Valid()
      modifies this
      ensures Valid()
      ensures entities == old(entities)[e := []]
      ensures keys == KeysAfterAssign(old(keys), e)
      ensures systems == old(systems)
    {
      keys := KeysAfterAssign(keys, e);
      entities := entities[e := []];
    }

    /** `add_system(function)`: appends, keeping duplicates. */
    method AddSystem(s: SystemId)
      modifies this
      ensures systems == old(systems) + [s]
      ensures entities == old(entities) && keys == old(keys)
    {
      systems := systems + [s];
    }

    /**
     * `do_frame(*data)`: calls every entry of the systems list once, in list
     * order, each with the same data; the result is the sequence of calls made.
     */
    method DoFrame(data: seq<int>) returns (trace: seq<Call>)
      ensures |trace| == |systems|
      ensures forall i :: 0 <= i < |systems| ==> trace[i] == Call(systems[i], data)
    {
      trace := [];
      for i := 0 to |systems|
        invariant |trace| == i
        invariant forall j :: 0 <= j < i ==> trace[j] == Call(systems[j], data)
      {
        trace := trace + [Call(systems[i], data)];
      }
    }

    /**
     * `get_entities_with_component(*types)`: scans the entities in key order
     * and keeps each one for which `has_component` holds.
     */
    method GetEntitiesWithComponent(types: seq<TypeTag>) returns (r: seq<int>)
      requires Valid()
      ensures r == Matching(keys, entities, types)
    {
      r := [];
      for i := 0 to |keys|
        invariant r == Matching(keys[..i], entities, types)
      {
        var entity := keys[i];
        var has := HasComponent(entity, types);
        assert keys[..i + 1][..i] == keys[..i];
        if has == Ok(true) {
          r := r + [entity];
        }
      }
      assert keys[..|keys|] == keys;
    }
  }
}
