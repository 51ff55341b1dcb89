/** An abstract entity registry: the part of `entt::registry` that the
    snapshot and loader tests observe. Each entity identifier names a slot;
    a slot remembers the version its identifier is currently at, whether the
    entity is alive, and the components attached to it. */
module Registry {

  /** An entity handle: the slot it names and the version it was issued at. */
  datatype Entity = Entity(id: nat, version: nat)

  /** The component types the tests archive (`int`, `char`, `another_component`). */
  datatype Component = IntComponent | CharComponent | AnotherComponent

  datatype Value =
    | IntValue(i: int)
    | CharValue(ch: char)
    | AnotherValue(key: int, value: int)

  datatype Slot = Slot(version: nat, alive: bool, components: map<Component, Value>)

  datatype Registry = Registry(slots: seq<Slot>)

  /** A value of the component type it is stored under: `assign<int>` only ever stores an `int`. */
  predicate Fits(c: Component, v: Value) {
    match c
    case IntComponent => v.IntValue?
    case CharComponent => v.CharValue?
    case AnotherComponent => v.AnotherValue?
  }

  /** A destroyed entity owns no components. */
  ghost predicate DeadSlotsEmpty(r: Registry) {
    forall i :: 0 <= i < |r.slots| && !r.slots[i].alive ==> r.slots[i].components == map[]
  }

  /** Every component is stored under its own type. */
  ghost predicate WellTyped(r: Registry) {
    forall i, c :: 0 <= i < |r.slots| && c in r.slots[i].components ==> Fits(c, r.slots[i].components[c])
  }

  ghost predicate WellFormed(r: Registry) {
    DeadSlotsEmpty(r) && WellTyped(r)
  }

  function Empty(): (r: Registry)
    ensures WellFormed(r)
    ensures forall e :: !Valid(r, e)
  {
    Registry([])
  }

  /** A handle is valid when its slot is alive and still at the handle's version. */
  predicate Valid(r: Registry, e: Entity) {
    e.id < |r.slots| && r.slots[e.id].alive && r.slots[e.id].version == e.version
  }

  /** The version the handle's identifier is currently at. */
  function Current(r: Registry, e: Entity): nat
    requires e.id < |r.slots|
  {
    r.slots[e.id].version
  }

  function Create(r: Registry): (result: (Registry, Entity))
    ensures Valid(result.0, result.1)
    ensures !Valid(r, result.1)
    ensures forall e :: Valid(result.0, e) <==> Valid(r, e) || e == result.1
    ensures |result.0.slots| == |r.slots| + 1 && result.0.slots[..|r.slots|] == r.slots
    ensures Orphan(result.0, result.1)
    ensures WellFormed(r) ==> WellFormed(result.0)
  {
    var e := Entity(|r.slots|, 0);
    (Registry(r.slots + [Slot(0, true, map[])]), e)
  }

  /** Destroying an entity drops its components and moves its identifier to the next version. */
  function Destroy(r: Registry, e: Entity): (r': Registry)
    requires Valid(r, e)
    ensures !Valid(r', e)
    ensures e.id < |r'.slots| && Current(r', e) == e.version + 1
    ensures !r'.slots[e.id].alive && r'.slots[e.id].components == map[]
    ensures forall x: Entity :: x.id == e.id ==> !Valid(r', x)
    ensures forall x: Entity :: x.id != e.id ==> (Valid(r', x) <==> Valid(r, x))
    ensures |r'.slots| == |r.slots|
    ensures forall i :: 0 <= i < |r.slots| && i != e.id ==> r'.slots[i] == r.slots[i]
    ensures WellFormed(r) ==> WellFormed(r')
  {
    Registry(r.slots[e.id := Slot(e.version + 1, false, map[])])
  }

  predicate Has(r: Registry, c: Component, e: Entity)
    requires Valid(r, e)
  {
    c in r.slots[e.id].components
  }

  function Get(r: Registry, c: Component, e: Entity): Value
    requires Valid(r, e) && Has(r, c, e)
  {
    r.slots[e.id].components[c]
  }

  /** Attaching a component to a valid entity; an existing one of that type is replaced. */
  function Assign(r: Registry, c: Component, e: Entity, v: Value): (r': Registry)
    requires Valid(r, e) && Fits(c, v)
    ensures forall x :: Valid(r', x) <==> Valid(r, x)
    ensures Has(r', c, e) && Get(r', c, e) == v
    ensures forall d :: d != c ==> (Has(r', d, e) <==> Has(r, d, e))
    ensures forall d :: d != c && Has(r, d, e) ==> Get(r', d, e) == Get(r, d, e)
    ensures |r'.slots| == |r.slots|
    ensures forall i :: 0 <= i < |r.slots| && i != e.id ==> r'.slots[i] == r.slots[i]
    ensures WellFormed(r) ==> WellFormed(r')
  {
    var s := r.slots[e.id];
    Registry(r.slots[e.id := s.(components := s.components[c := v])])
  }

  /** An orphan is a valid entity with no component at all. */
  predicate Orphan(r: Registry, e: Entity)
    requires Valid(r, e)
  {
    r.slots[e.id].components == map[]
  }

  /** `empty<T>()`: no entity has a component of type `c`. */
  predicate EmptyPool(r: Registry, c: Component) {
    forall i :: 0 <= i < |r.slots| ==> c !in r.slots[i].components
  }

  /** `reset()`: every live entity is destroyed; identifiers keep their slots. */
  function Reset(r: Registry): (r': Registry)
    ensures WellFormed(r')
    ensures forall e :: !Valid(r', e)
    ensures |r'.slots| == |r.slots|
    ensures forall c :: EmptyPool(r', c)
    ensures forall i :: 0 <= i < |r.slots| && !r.slots[i].alive ==> r'.slots[i].version == r.slots[i].version
  {
    Registry(seq(|r.slots|, i requires 0 <= i < |r.slots| =>
      var s := r.slots[i];
      Slot(if s.alive then s.version + 1 else s.version, false, map[])))
  }
}
