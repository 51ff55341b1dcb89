/** The Dump and Partial snapshot tests on their own registry: four entities
    are created, `int` and `char` components are attached, and the second
    entity is destroyed (the `double` component of the first is left out). */
module SnapshotTests {
  import opened Options
  import opened Registry
  import Archive
  import opened Snapshot
  import opened RoundTrips

  const e0 := Entity(0, 0)
  const e1 := Entity(1, 0)
  const e2 := Entity(2, 0)
  const e3 := Entity(3, 0)

  /** The registry both tests build before taking the snapshot. */
  function TestRegistry(): (r: Registry)
    ensures Valid(r, e0) && !Valid(r, e1) && Valid(r, e2) && Valid(r, e3)
    ensures Current(r, e1) == 1
  {
    var (r0, h0) := Create(Empty());
    var r1 := Assign(r0, IntComponent, h0, IntValue(42));
    var r2 := Assign(r1, CharComponent, h0, CharValue('c'));
    var (r3, h1) := Create(r2);
    var (r4, h2) := Create(r3);
    var r5 := Assign(r4, IntComponent, h2, IntValue(3));
    var (r6, h3) := Create(r5);
    var r7 := Assign(r6, CharComponent, h3, CharValue('0'));
    Destroy(r7, h1)
  }

  /** Destroying `e1` left its slot empty, and every value has its component's type. */
  lemma TestRegistryWellFormed()
    ensures WellFormed(TestRegistry())
  {
    TestRegistrySlots();
  }

  /** The test registry slot by slot, one slot per created entity. */
  const Built := Registry([
    Slot(0, true, map[IntComponent := IntValue(42), CharComponent := CharValue('c')]),
    Slot(1, false, map[]),
    Slot(0, true, map[IntComponent := IntValue(3)]),
    Slot(0, true, map[CharComponent := CharValue('0')])])

  /** The creates, assigns and destroy of the tests build exactly `Built`. */
  lemma TestRegistrySlots()
    ensures TestRegistry() == Built
  {
  }

  /** The Dump test: every handle is invalid after `reset()`; the loader
      with `orphans()` gives back the very registry that was dumped, since
      none of its live entities is an orphan. */
  lemma DumpTest(s: Storage)
    requires Archive.Drained(s) && Declares(s, [IntComponent, CharComponent, AnotherComponent])
    ensures forall e :: !Valid(Reset(TestRegistry()), e)
    ensures var r, cs := TestRegistry(), [IntComponent, CharComponent, AnotherComponent];
      Restore(Reset(r), cs, TakeSnapshot(r, cs, s), true) == Some((r, s))
  {
    var r := TestRegistry();
    TestRegistryWellFormed();
    TestRegistryHasNoOrphans();
    DumpOfNoOrphans(r, s);
  }

  /** A full dump of a registry without orphans, loaded with `orphans()`,
      gives back that very registry. */
  lemma DumpOfNoOrphans(r: Registry, s: Storage)
    requires WellFormed(r) && Orphans(r) == r
    requires Archive.Drained(s) && Declares(s, [IntComponent, CharComponent, AnotherComponent])
    ensures var cs := [IntComponent, CharComponent, AnotherComponent];
      Restore(Reset(r), cs, TakeSnapshot(r, cs, s), true) == Some((r, s))
  {
    var cs := [IntComponent, CharComponent, AnotherComponent];
    assert forall c: Component :: c in cs by {
      forall c: Component ensures c in cs {
        assert c == cs[0] || c == cs[1] || c == cs[2];
      }
    }
    Dump(r, cs, s);
  }

  /** What the Dump test then asserts of the registry it loaded back: the
      same handles are valid, none of them an orphan, each holds its values,
      `e1` keeps its version, and no entity has `another_component`. */
  lemma DumpTestObserved(s: Storage)
    requires Archive.Drained(s) && Declares(s, [IntComponent, CharComponent, AnotherComponent])
    ensures var cs := [IntComponent, CharComponent, AnotherComponent];
      var o := Restore(Reset(TestRegistry()), cs, TakeSnapshot(TestRegistry(), cs, s), true);
      && o.Some?
      && var r := o.value.0;
      && Valid(r, e0) && !Valid(r, e1) && Valid(r, e2) && Valid(r, e3)
      && !Orphan(r, e0) && !Orphan(r, e2) && !Orphan(r, e3)
      && Has(r, IntComponent, e0) && Get(r, IntComponent, e0) == IntValue(42)
      && Has(r, CharComponent, e0) && Get(r, CharComponent, e0) == CharValue('c')
      && e1.id < |r.slots| && Current(r, e1) == Current(TestRegistry(), e1)
      && Has(r, IntComponent, e2) && Get(r, IntComponent, e2) == IntValue(3)
      && Has(r, CharComponent, e3) && Get(r, CharComponent, e3) == CharValue('0')
      && EmptyPool(r, AnotherComponent)
  {
    DumpTest(s);
    TestRegistryFacts();
  }

  /** The facts the Dump test asserts, of the registry the tests build. */
  lemma TestRegistryFacts()
    ensures var r := TestRegistry();
      && Valid(r, e0) && !Valid(r, e1) && Valid(r, e2) && Valid(r, e3)
      && !Orphan(r, e0) && !Orphan(r, e2) && !Orphan(r, e3)
      && Has(r, IntComponent, e0) && Get(r, IntComponent, e0) == IntValue(42)
      && Has(r, CharComponent, e0) && Get(r, CharComponent, e0) == CharValue('c')
      && Has(r, IntComponent, e2) && Get(r, IntComponent, e2) == IntValue(3)
      && Has(r, CharComponent, e3) && Get(r, CharComponent, e3) == CharValue('0')
      && EmptyPool(r, AnotherComponent)
  {
    TestRegistrySlots();
    BuiltFacts();
  }

  lemma BuiltFacts()
    ensures var r := Built;
      && Valid(r, e0) && !Valid(r, e1) && Valid(r, e2) && Valid(r, e3)
      && !Orphan(r, e0) && !Orphan(r, e2) && !Orphan(r, e3)
      && Has(r, IntComponent, e0) && Get(r, IntComponent, e0) == IntValue(42)
      && Has(r, CharComponent, e0) && Get(r, CharComponent, e0) == CharValue('c')
      && Has(r, IntComponent, e2) && Get(r, IntComponent, e2) == IntValue(3)
      && Has(r, CharComponent, e3) && Get(r, CharComponent, e3) == CharValue('0')
      && EmptyPool(r, AnotherComponent)
  {
    assert IntComponent in Built.slots[0].components && IntComponent in Built.slots[2].components;
    assert CharComponent in Built.slots[3].components;
  }

  /** Every live entity of the test registry owns a component. */
  lemma TestRegistryHasNoOrphans()
    ensures Orphans(TestRegistry()) == TestRegistry()
  {
    TestRegistrySlots();
    BuiltHasNoOrphans();
  }

  lemma BuiltHasNoOrphans()
    ensures Orphans(Built) == Built
  {
    var o := Orphans(Built);
    forall i | 0 <= i < |Built.slots| ensures o.slots[i] == Built.slots[i] {
      if i == 0 || i == 2 {
        assert IntComponent in Built.slots[i].components;
      } else if i == 3 {
        assert CharComponent in Built.slots[i].components;
      }
    }
    assert o.slots == Built.slots;
  }

  /** The Partial test: loading `char` and `int` only, without `orphans()`,
      brings the same entities and values back; then a snapshot of the
      entities alone, loaded with `orphans()`, leaves every handle invalid. */
  lemma PartialTest(s: Storage)
    requires Archive.Drained(s) && Declares(s, [CharComponent, IntComponent])
    ensures var r := TestRegistry();
      var cs := [CharComponent, IntComponent];
      var o := Restore(Reset(r), cs, TakeSnapshot(r, cs, s), false);
      && o.Some?
      && Valid(o.value.0, e0) && !Valid(o.value.0, e1) && Valid(o.value.0, e2) && Valid(o.value.0, e3)
      && Has(o.value.0, IntComponent, e0) && Get(o.value.0, IntComponent, e0) == IntValue(42)
      && Has(o.value.0, CharComponent, e0) && Get(o.value.0, CharComponent, e0) == CharValue('c')
      && Current(o.value.0, e1) == Current(r, e1)
      && Has(o.value.0, IntComponent, e2) && Get(o.value.0, IntComponent, e2) == IntValue(3)
      && Has(o.value.0, CharComponent, e3) && Get(o.value.0, CharComponent, e3) == CharValue('0')
      && o.value.1 == s
      && var o' := Restore(Reset(o.value.0), [], TakeSnapshot(o.value.0, [], s), true);
         o'.Some? && !Valid(o'.value.0, e0) && !Valid(o'.value.0, e1) && !Valid(o'.value.0, e2) && !Valid(o'.value.0, e3)
  {
    var r := TestRegistry();
    var cs := [CharComponent, IntComponent];
    TestRegistrySlots();
    TestRegistryWellFormed();
    PartialObserved(r, cs, s);
    var r' := Restore(Reset(r), cs, TakeSnapshot(r, cs, s), false).value.0;
    RoundTrip(r, cs, s, false);
    RestrictView(r, cs);
    EntitiesOnlyOrphans(r', s);
  }
}
