# ComPyNent `EntityManager` in Dafny

A model of `compynent.py`, a small entity-component-system registry for
Python. One class, `EntityManager`, keeps:

- `self.entities`, a dict from integer entity id to a list ("bag") of
  component objects. It is modelled as the field `entities: map<int, seq<Component>>`
  together with `keys: seq<int>`, the dict's key insertion order, which
  `get_entities` and `get_entities_with_component` expose.
- `self.systems`, a list of callables, modelled as `systems: seq<SystemId>`
  with each callable an opaque id.
- the class attribute `EntityManager.number`, the id counter. Every manager in
  the process shares it. Dafny has no mutable statics, so it is a `Counter`
  object handed to each manager's constructor; two managers built on one
  counter draw from the same sequence of ids. A ghost `issued` list records
  every id handed out.

Files:

- `wrappers.dfy`: `Option`, `Result` and `Outcome`.
- `bags.dfy` (module `Bags`): one entity's bag. A `Component` carries its
  runtime class (`kind`, a `TypeTag`) and an identity. This module holds the
  specification functions for first-match lookup (`FindType`, `FirstOfType`),
  for removal (`RemoveFirstOfType`, and Python's `list.remove` as `ListRemove`)
  and for `has_component` (`HasAll`), with lemmas that connect them.
- `compynent.dfy` (module `Compynent`): the `Counter` and `EntityManager`
  classes. Each Python method is a Dafny method on the class. The ones that
  mutate state state their whole new state. The read-only loops
  (`get_component`, `has_component`, `get_entities_with_component`,
  `do_frame`) are proved against specification functions. The module also
  models the key order of a Python dict after `d[k] = v` and after `del d[k]`
  (`KeysAfterAssign`, `KeysAfterDelete`).
- `scenarios.dfy` (module `Scenarios`): client methods checked only against
  the contracts above.
  - `PositionModelSetup`, `PositionModelQuery`, `PositionModelRemoval`: the
    position/model example. e1 holds a Position and a Model and e2 only a
    Position. Only e1 matches (Position, Model). Removing e1's Model keeps
    its Position. Looking up a deleted id raises `KeyError`.
  - `SharedCounter`: two managers sharing one counter.
  - `FrameOrder`: duplicate systems are each called in every frame.
  - `ClearThenCreate`: an id inserted by `clear_entity` is later handed out
    again by `create_entity`.

Indexing `self.entities` with an unknown id raises `KeyError` in Python. The
model returns `Err(KeyError(e))` or `Fail(KeyError(e))` instead and leaves
the state unchanged. This affects `delete_entity`, `add_component`,
`get_component`, `remove_component` and `has_component`. `clear_entity` never
fails: assigning to an unknown key inserts it at the end of the key order.
`create_entity` assigns in the same way. If its new id is already live
because `clear_entity` inserted it, the bag is replaced and the key keeps its
place. `CreateEntity` proves that this cannot happen while every live id was
issued by the counter.

Behaviour of the code that a reader might not expect:

- `add_system` appends. It keeps duplicates, takes no ordering key and does
  not check the callable.
- `do_frame` calls the systems in list order.
- `remove_component`, `delete_entity` and `clear_entity` never call a
  `cleanup` method.
- `clear_entity` on an unknown id inserts it rather than failing.
- The id counter is shared by all managers, not owned by each one.
- After `add_component(e, c)`, `get_component(e, type(c))` returns the
  earlier first component of that type if the bag already had one, otherwise
  `c` (`Bags.AddThenQuery`).

## Model

| member | source | states |
|---|---|---|
| `Bags.TypesOf` | compynent.py:69-71 | the `types_present` list: as long as the bag, holding each component's type at that component's position |
| `Bags.HasAll` | compynent.py:72-75 | `has_component`'s answer: true iff every requested type is the type of some component of the bag (so the empty request gives true) |
| `Bags.FindType` | compynent.py:53-55 | the scan position: the index of a component of type `t` with no component of type `t` before it, or None exactly when no component has type `t` |
| `Bags.FirstOfType` | compynent.py:50-55 | what `get_component` yields for a bag: None iff no component has the type; otherwise a component of that type drawn from the bag, and it is the one at the first index of that type |
| `Bags.FindTypeAt` | compynent.py:53-55 | conversely, a component of type `t` with no component of type `t` before it is exactly the one the scan stops at |
| `Bags.FindTypeAbsent` | compynent.py:53-55 | conversely, a bag with no component of type `t` makes the scan run to the end and yield None |
| `Bags.RemoveFirstOfTypeCuts` | compynent.py:57-62 | the bag after `remove_component` (`RemoveFirstOfType`): equal to the bag when nothing matches; otherwise the bag with exactly the element at the first match's index cut out, everything else in order |
| `Bags.ListRemove` | compynent.py:61 | Python `list.remove(x)` on a list holding `x`: one element shorter, and the multiset loses exactly one `x` |
| `Bags.ListRemoveCutsFirst` | compynent.py:61 | `list.remove(x)` cuts out the first occurrence of `x` and keeps every other element in order |
| `Bags.ListRemoveIsRemoveFirstOfType` | compynent.py:59-62 | `list.remove` applied to the first type match deletes that very position, so the loop-then-remove of the source equals `RemoveFirstOfType` |
| `Bags.AddThenQuery` | compynent.py:48 | after appending `c`: the bag has `c`'s type; every type list satisfied before is still satisfied; the lookup of `c`'s type returns the earlier first component of that type if there is one, otherwise `c` |
| `Bags.FindAfterRemove` | compynent.py:57-62 | after removing the first match of `t`, the lookup of `t` finds the next component of type `t` that followed it, or None |
| `Bags.RemoveKeepsOtherTypes` | compynent.py:57-75 | removing the first match of `t` does not change the lookup of any other type, nor `has_component` over a type list not naming `t` |
| `Bags.HasAllIffEachFound` | compynent.py:50-75 | `has_component(e, *types)` holds iff `get_component` finds a component for every listed type (so the empty list gives true) |
| `Compynent.KeysAfterAssign` | compynent.py:33 | dict key order after `d[k] = v`: the old keys are a prefix of the new order; a new `k` is appended as the one extra key, an existing one adds nothing; still duplicate-free |
| `Compynent.KeysAfterDelete` | compynent.py:40 | dict key order after `del d[x]`: exactly the old keys other than `x`, duplicate-free, in their old order |
| `Compynent.Matching` | compynent.py:92-101 | the ids whose bags satisfy `has_component`: exactly those keys, as a subsequence of the key order, with no duplicates when the keys have none |
| `Compynent.IssuedIncreasing` | compynent.py:17 | the ids the shared counter has issued are positive, pairwise distinct and strictly increasing |
| `Compynent.Counter.constructor` | compynent.py:17 | the counter starts at 0 with nothing issued |
| `Compynent.Counter.Next` | compynent.py:31-32 | increments the counter and returns the new value, which is greater than every id issued before |
| `Compynent.EntityManager.constructor` | compynent.py:19-21 | no entities, no systems, ids drawn from the given shared counter |
| `Compynent.EntityManager.CreateEntity` | compynent.py:23-36 | the id is the shared counter plus one, greater than every id any manager was issued; it is not live if every live id came from the counter; the map binds it to the initial components in argument order and nothing else changes; dict key order as for assignment |
| `Compynent.EntityManager.DeleteEntity` | compynent.py:38-40 | a live id is removed with its bag, other entries and their order untouched; an unknown id gives `KeyError` and no change |
| `Compynent.EntityManager.GetEntities` | compynent.py:42-44 | every live id exactly once, in insertion order |
| `Compynent.EntityManager.AddComponent` | compynent.py:46-48 | the component is appended at the end of that bag and nothing else changes; an unknown id gives `KeyError` and no change |
| `Compynent.EntityManager.GetComponent` | compynent.py:50-55 | returns the first component of the type in bag order, or None; the state is not modified; an unknown id gives `KeyError` |
| `Compynent.EntityManager.RemoveComponent` | compynent.py:57-62 | the bag loses exactly its first component of the type, the rest kept in order; no match leaves it unchanged without error; an unknown id gives `KeyError` |
| `Compynent.EntityManager.HasComponent` | compynent.py:64-75 | true iff every requested type occurs among the bag's types; an unknown id gives `KeyError` |
| `Compynent.EntityManager.ClearEntity` | compynent.py:77-79 | the id is bound to an empty bag: a live id keeps its place, an unknown id is inserted last; nothing else changes |
| `Compynent.EntityManager.AddSystem` | compynent.py:81-85 | the system is appended to the systems list, duplicates kept; entities untouched |
| `Compynent.EntityManager.DoFrame` | compynent.py:87-90 | one call per systems-list entry, in list order, each passed the same data |
| `Compynent.EntityManager.GetEntitiesWithComponent` | compynent.py:92-101 | the result is `Matching` over the live keys: exactly the live ids for which `has_component` holds, in key order, no duplicates, a subsequence of `get_entities()` |

## Left out

- What a system does when called is not modelled. Systems are opaque ids and
  `do_frame` returns the list of calls it makes. The model does not cover a
  system that raises (which ends the frame early), a system that mutates the
  manager, or a system that appends to `self.systems` during a frame (the
  Python loop would then also call it).
- The `*data` payload of `do_frame` is modelled as a list of integers. It is
  passed through unchanged.
- Components are values with a type tag and an identity. `list.remove` matches
  by `==`. A component class with a custom `__eq__` could make it drop an
  earlier equal element of another type; the model assumes identity equality.
  Mutation of a component object that is shared between bags is not modelled.
- Entity ids are Python ints. Any hashable key that `clear_entity` might
  insert is restricted to `int` here.
- Reassigning `EntityManager.number` from outside the class, or shadowing it
  in a subclass, is not modelled.
- `import warnings` is unused by the code.
- The Panda3D sample program that ships with the library drives a host
  engine and render loop. It is not part of this model.
