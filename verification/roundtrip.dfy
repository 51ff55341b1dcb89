/** What the Dump and Partial snapshot tests observe after a round trip:
    the registry is snapshotted into drained storage, reset, and loaded back. */
module RoundTrips {
  import opened Options
  import opened Registry
  import Archive
  import opened Snapshot

  /** Keeping every component type keeps the registry as it is. */
  lemma RestrictEverything(r: Registry, cs: seq<Component>)
    requires forall c: Component :: c in cs
    ensures Restrict(r, cs) == r
  {
    var r' := Restrict(r, cs);
    forall i | 0 <= i < |r.slots| ensures r'.slots[i] == r.slots[i] {
      var comps := r.slots[i].components;
      assert Keep(comps, cs) == comps;
    }
  }

  /** A full dump, loaded back with `orphans()`, gives back the registry
      without its orphans, and the storage drained again. */
  lemma Dump(r: Registry, cs: seq<Component>, s: Storage)
    requires WellFormed(r) && Archive.Drained(s) && Declares(s, cs)
    requires forall c: Component :: c in cs
    ensures Restore(Reset(r), cs, TakeSnapshot(r, cs, s), true) == Some((Orphans(r), s))
  {
    RoundTrip(r, cs, s, true);
    RestrictEverything(r, cs);
  }

  /** What the Dump test asserts after loading: exactly the entities that were
      valid and owned something are valid; each keeps its components and
      their values; a destroyed identifier keeps its version; and a
      component type nobody had is still empty. */
  lemma DumpObserved(r: Registry, cs: seq<Component>, s: Storage)
    requires WellFormed(r) && Archive.Drained(s) && Declares(s, cs)
    requires forall c: Component :: c in cs
    ensures Restore(Reset(r), cs, TakeSnapshot(r, cs, s), true).Some?
    ensures var r' := Restore(Reset(r), cs, TakeSnapshot(r, cs, s), true).value.0;
      && (forall e :: Valid(r', e) <==> Valid(r, e) && !Orphan(r, e))
      && (forall e, c :: Valid(r', e) ==> (Has(r', c, e) <==> Has(r, c, e)))
      && (forall e, c :: Valid(r', e) && Has(r, c, e) ==> Get(r', c, e) == Get(r, c, e))
      && (forall e: Entity :: e.id < |r.slots| && !r.slots[e.id].alive ==> e.id < |r'.slots| && Current(r', e) == Current(r, e))
      && (forall c :: EmptyPool(r', c) <==> EmptyPool(r, c))
  {
    Dump(r, cs, s);
    OrphansKeepPools(r);
  }

  /** `orphans()` destroys only entities without components, so no pool changes. */
  lemma OrphansKeepPools(r: Registry)
    ensures forall c :: EmptyPool(Orphans(r), c) <==> EmptyPool(r, c)
  {
    var r' := Orphans(r);
    forall c ensures EmptyPool(r', c) <==> EmptyPool(r, c) {
      if !EmptyPool(r, c) {
        var i :| 0 <= i < |r.slots| && c in r.slots[i].components;
        assert c in r'.slots[i].components;
      }
    }
  }

  /** What the Partial test asserts after loading some component types
      without `orphans()`: the same entities are valid, every identifier keeps
      its version, an entity has a component exactly when the type was
      listed and it had one before, and the values are those it had. */
  lemma PartialObserved(r: Registry, cs: seq<Component>, s: Storage)
    requires WellFormed(r) && Archive.Drained(s) && Declares(s, cs)
    ensures Restore(Reset(r), cs, TakeSnapshot(r, cs, s), false).Some?
    ensures var r' := Restore(Reset(r), cs, TakeSnapshot(r, cs, s), false).value.0;
      && |r'.slots| == |r.slots|
      && (forall e :: Valid(r', e) <==> Valid(r, e))
      && (forall e: Entity :: e.id < |r.slots| ==> Current(r', e) == Current(r, e))
      && (forall e, c :: Valid(r, e) ==> (Has(r', c, e) <==> c in cs && Has(r, c, e)))
      && (forall e, c :: Valid(r, e) && c in cs && Has(r, c, e) ==> Get(r', c, e) == Get(r, c, e))
      && (forall c :: EmptyPool(r', c) <==> c !in cs || EmptyPool(r, c))
      && Restore(Reset(r), cs, TakeSnapshot(r, cs, s), false).value.1 == s
  {
    RoundTrip(r, cs, s, false);
    RestrictView(r, cs);
  }

  /** The second half of the Partial test: a snapshot of the entities alone,
      loaded back with `orphans()`, leaves no valid entity, since no entity
      gets a component back. */
  lemma EntitiesOnlyOrphans(r: Registry, s: Storage)
    requires WellFormed(r) && Archive.Drained(s) && EntityTag in s
    ensures Restore(Reset(r), [], TakeSnapshot(r, [], s), true).Some?
    ensures forall e :: !Valid(Restore(Reset(r), [], TakeSnapshot(r, [], s), true).value.0, e)
  {
    RoundTrip(r, [], s, true);
    var kept := Restrict(r, []);
    forall e | Valid(kept, e) ensures Orphan(kept, e) {
      assert Keep(r.slots[e.id].components, []) == map[];
    }
  }
}
