/**
 * Client code written only against the contracts of `EntityManager`: a
 * position/model scenario, the shared id counter seen from two managers,
 * and the systems list replayed by `do_frame`.
 */
module Scenarios {
  import opened Wrappers
  import opened Bags
  import opened Compynent

  const Position: TypeTag := 1
  const Model: TypeTag := 2

  /**
   * e1 is created with a Position and then gets a Model; e2 is created with
   * a Position only.
   */
  method PositionModelSetup(counter: Counter, pos1: Component, model1: Component, pos2: Component)
    returns (m: EntityManager, e1: int, e2: int)
    requires counter.Valid()
    modifies counter
    ensures fresh(m) && m.Valid() && m.counter == counter && counter.Valid()
    ensures e1 < e2 && m.keys == [e1, e2]
    ensures e1 in m.entities && m.entities[e1] == [pos1, model1]
    ensures e2 in m.entities && m.entities[e2] == [pos2]
  {
    m := new EntityManager(counter);
    e1 := m.CreateEntity([pos1]);
    var added := m.AddComponent(e1, model1);
    assert m.entities[e1] == [pos1] + [model1] == [pos1, model1];
    e2 := m.CreateEntity([pos2]);
  }

  /**
   * On that setup the Model is found on e1, and only e1 matches
   * (Position, Model).
   */
  method PositionModelQuery(counter: Counter)
    requires counter.Valid()
    modifies counter
  {
    var pos1, model1, pos2 := Component(Position, 1), Component(Model, 2), Component(Position, 3);
    var m, e1, e2 := PositionModelSetup(counter, pos1, model1, pos2);
    var got := m.GetComponent(e1, Model);
    PositionModelBags(pos1, model1, pos2);
    assert got == Ok(Some(model1));
    var both := m.GetEntitiesWithComponent([Position, Model]);
    MatchFirstOfTwo(e1, e2, m.entities, [Position, Model]);
    assert both == [e1];
  }

  /** The bags of the walk-through: [Position, Model] matches the first bag and not the second. */
  lemma PositionModelBags(pos1: Component, model1: Component, pos2: Component)
    requires pos1.kind == Position && model1.kind == Model && pos2.kind == Position
    ensures FirstOfType([pos1, model1], Model) == Some(model1)
    ensures HasAll([pos1, model1], [Position, Model])
    ensures !HasAll([pos2], [Position, Model])
  {
    FindTypeAt([pos1, model1], Model, 1);
    assert TypesOf([pos1, model1]) == [Position, Model];
    assert TypesOf([pos2]) == [Position];
    assert !HasType([pos2], [Position, Model][1]);
  }

  /** Over two keys of which only the first matches, the query returns the first alone. */
  lemma MatchFirstOfTwo(e1: int, e2: int, entities: map<int, seq<Component>>, types: seq<TypeTag>)
    requires e1 in entities && e2 in entities
    requires HasAll(entities[e1], types) && !HasAll(entities[e2], types)
    ensures Matching([e1, e2], entities, types) == [e1]
  {
    assert [e1, e2][..1] == [e1];
    assert [e1][..0] == [];
  }

  /**
   * Removing e1's Model keeps its Position; once e2 is deleted, looking it
   * up raises KeyError.
   */
  method PositionModelRemoval(counter: Counter)
    requires counter.Valid()
    modifies counter
  {
    var m := new EntityManager(counter);
    var pos1, model1, pos2 := Component(Position, 1), Component(Model, 2), Component(Position, 3);
    var e1 := m.CreateEntity([pos1, model1]);
    var e2 := m.CreateEntity([pos2]);
    assert e1 < e2 && m.entities[e1] == [pos1, model1];

    var removed := m.RemoveComponent(e1, Model);
    PositionModelRemovalBags(pos1, model1);
    assert removed == Pass && m.entities[e1] == [pos1];
    var hasPos := m.HasComponent(e1, [Position]);
    var hasModel := m.HasComponent(e1, [Model]);
    assert hasPos == Ok(true) && hasModel == Ok(false);

    var deleted := m.DeleteEntity(e2);
    assert deleted == Pass;
    var gone := m.GetComponent(e2, Position);
    assert gone == Err(KeyError(e2));
  }

  /** Removing the Model from [Position, Model] leaves [Position], which has no Model. */
  lemma PositionModelRemovalBags(pos1: Component, model1: Component)
    requires pos1.kind == Position && model1.kind == Model
    ensures RemoveFirstOfType([pos1, model1], Model) == [pos1]
    ensures HasAll([pos1], [Position]) && !HasAll([pos1], [Model])
  {
    FindTypeAt([pos1, model1], Model, 1);
    RemoveFirstOfTypeCuts([pos1, model1], Model);
    assert [pos1, model1][..1] + [pos1, model1][2..] == [pos1];
    assert TypesOf([pos1]) == [Position];
  }

  /** Two managers draw from one counter, so their ids never coincide. */
  method SharedCounter(counter: Counter)
    requires counter.Valid()
    modifies counter
  {
    var a := new EntityManager(counter);
    var b := new EntityManager(counter);
    var x := a.CreateEntity([]);
    var y := b.CreateEntity([]);
    var z := a.CreateEntity([]);
    assert x < y < z;
  }

  /** Registering s, t, s calls s, t, s each frame, all with the frame's data. */
  method FrameOrder(counter: Counter, s: SystemId, t: SystemId, data: seq<int>)
  {
    var m := new EntityManager(counter);
    m.AddSystem(s);
    m.AddSystem(t);
    m.AddSystem(s);
    var trace := m.DoFrame(data);
    assert trace == [Call(s, data), Call(t, data), Call(s, data)];
  }

  /**
   * `clear_entity` on an id that is not live makes it live; if that id is the
   * next one the counter will issue, `create_entity` returns an id that is
   * already live and replaces its bag, leaving its position in the key order.
   */
  method ClearThenCreate(counter: Counter, c: Component)
    requires counter.Valid()
    modifies counter
  {
    var m := new EntityManager(counter);
    var next := counter.number + 1;
    m.ClearEntity(next);
    var e := m.AddComponent(next, c);
    assert e == Pass && m.entities[next] == [c];
    var id := m.CreateEntity([]);
    assert id == next && m.entities[id] == [] && m.keys == [id];
  }
}
