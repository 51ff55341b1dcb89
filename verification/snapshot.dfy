/** Snapshots of a registry written through an output archive, and the
    loader that restores them through an input archive.

    A snapshot writes, for each part asked for, a count followed by the
    part's items: live entity handles (`entities`), destroyed entity handles
    with the version their identifier is at (`destroyed`), and for each
    listed component type the pairs of an owning handle and its component
    (`component<...>`). The count is written as an entity-typed value, so it
    travels in the entity queue alongside the handles. The loader reads the
    same parts back in the same order and rebuilds the registry from them. */
module Snapshot {
  import opened Options
  import opened Registry
  import Archive

  /** The static type of an archived value: the entity type, or a component type. */
  datatype Tag = EntityTag | ComponentTag(component: Component)

  datatype Datum =
    | CountDatum(count: nat)
    | EntityDatum(entity: Entity)
    | ComponentDatum(value: Value)

  type Item = (Tag, Datum)
  type Storage = Archive.Storage<Tag, Datum>

  /** The storage has a queue for entities and for every listed component type. */
  predicate Declares(s: Storage, cs: seq<Component>) {
    EntityTag in s && forall i :: 0 <= i < |cs| ==> ComponentTag(cs[i]) in s
  }

  // ---------------------------------------------------------------------------
  // What a snapshot walks: handles and component instances, in identifier order

  /** The handles of the slots below `k` whose liveness is `alive`, in identifier order. */
  function Handles(slots: seq<Slot>, k: nat, alive: bool): seq<Entity>
    requires k <= |slots|
  {
    if k == 0 then []
    else Handles(slots, k - 1, alive) + (if slots[k - 1].alive == alive then [Entity(k - 1, slots[k - 1].version)] else [])
  }

  /** The instances of component `c` on the slots below `k`, each with its owner's handle. */
  function Instances(slots: seq<Slot>, k: nat, c: Component): seq<(Entity, Value)>
    requires k <= |slots|
  {
    if k == 0 then []
    else
      var s := slots[k - 1];
      Instances(slots, k - 1, c) + (if c in s.components then [(Entity(k - 1, s.version), s.components[c])] else [])
  }

  /** A snapshot walks exactly the handles of the slots of the asked-for
      liveness, each at the version its identifier is at. */
  lemma {:induction false} HandlesExactly(slots: seq<Slot>, k: nat, alive: bool)
    requires k <= |slots|
    ensures forall e :: e in Handles(slots, k, alive) <==>
      e.id < k && slots[e.id].alive == alive && slots[e.id].version == e.version
    decreases k
  {
    if k > 0 {
      HandlesExactly(slots, k - 1, alive);
    }
  }

  /** A snapshot walks exactly the instances of `c`, each with its owner's current handle. */
  lemma {:induction false} InstancesExactly(slots: seq<Slot>, k: nat, c: Component)
    requires k <= |slots|
    ensures forall e, v :: (e, v) in Instances(slots, k, c) <==>
      e.id < k && c in slots[e.id].components && slots[e.id].version == e.version && slots[e.id].components[c] == v
    decreases k
  {
    if k > 0 {
      InstancesExactly(slots, k - 1, c);
    }
  }

  // ---------------------------------------------------------------------------
  // The records a snapshot writes

  function EntityItems(es: seq<Entity>): (items: seq<Item>)
    ensures |items| == |es|
  {
    seq(|es|, i requires 0 <= i < |es| => (EntityTag, EntityDatum(es[i])))
  }

  /** A count followed by one handle per entity. */
  function EntitiesRecord(es: seq<Entity>): seq<Item> {
    [(EntityTag, CountDatum(|es|))] + EntityItems(es)
  }

  /** Each instance as its owner's handle followed by the component. */
  function PairItems(c: Component, ps: seq<(Entity, Value)>): (items: seq<Item>)
    ensures |items| == 2 * |ps|
  {
    if ps == [] then []
    else [(EntityTag, EntityDatum(ps[0].0)), (ComponentTag(c), ComponentDatum(ps[0].1))] + PairItems(c, ps[1..])
  }

  /** For each listed component type in turn, a count followed by its instances. */
  function ComponentsRecord(r: Registry, cs: seq<Component>): seq<Item> {
    if cs == [] then []
    else
      var ps := Instances(r.slots, |r.slots|, cs[0]);
      [(EntityTag, CountDatum(|ps|))] + PairItems(cs[0], ps) + ComponentsRecord(r, cs[1..])
  }

  // ---------------------------------------------------------------------------
  // Snapshot

  /** `snapshot().entities(archive)` */
  function SnapshotEntities(r: Registry, s: Storage): (s': Storage)
    requires EntityTag in s
    ensures s'.Keys == s.Keys
    ensures forall c :: ComponentTag(c) in s ==> s'[ComponentTag(c)] == s[ComponentTag(c)]
  {
    var items := EntitiesRecord(Handles(r.slots, |r.slots|, true));
    ProjectEntitiesRecord(Handles(r.slots, |r.slots|, true));
    Archive.OutputQueues(s, items);
    Archive.Output(s, items)
  }

  /** `snapshot().destroyed(archive)` */
  function SnapshotDestroyed(r: Registry, s: Storage): (s': Storage)
    requires EntityTag in s
    ensures s'.Keys == s.Keys
    ensures forall c :: ComponentTag(c) in s ==> s'[ComponentTag(c)] == s[ComponentTag(c)]
  {
    var items := EntitiesRecord(Handles(r.slots, |r.slots|, false));
    ProjectEntitiesRecord(Handles(r.slots, |r.slots|, false));
    Archive.OutputQueues(s, items);
    Archive.Output(s, items)
  }

  /** `snapshot().component<cs...>(archive)` */
  function SnapshotComponents(r: Registry, cs: seq<Component>, s: Storage): (s': Storage)
    requires Declares(s, cs)
    ensures s'.Keys == s.Keys
    ensures forall c :: ComponentTag(c) in s && c !in cs ==> s'[ComponentTag(c)] == s[ComponentTag(c)]
  {
    AdmitsComponentsRecord(r, cs, s);
    ProjectComponentsRecordOther(r, cs);
    Archive.OutputQueues(s, ComponentsRecord(r, cs));
    Archive.Output(s, ComponentsRecord(r, cs))
  }

  /** The snapshot of the tests: entities, destroyed entities, then the listed component types. */
  function TakeSnapshot(r: Registry, cs: seq<Component>, s: Storage): (s': Storage)
    requires Declares(s, cs)
    ensures s'.Keys == s.Keys
  {
    SnapshotComponents(r, cs, SnapshotDestroyed(r, SnapshotEntities(r, s)))
  }

  // ---------------------------------------------------------------------------
  // The registry operations the loader performs

  /** The slot an identifier has after the loader imposes a handle on it:
      alive at the handle's version keeping its components, or destroyed at
      the handle's version with none. */
  function ForcedSlot(prior: Slot, version: nat, destroyed: bool): Slot {
    if destroyed then Slot(version, false, map[]) else Slot(version, true, prior.components)
  }

  /** The loader imposes a handle on the registry, growing it when the
      identifier is beyond its end; identifiers skipped over get dead slots. */
  function Force(r: Registry, e: Entity, destroyed: bool): (r': Registry)
    ensures |r'.slots| == if e.id < |r.slots| then |r.slots| else e.id + 1
  {
    var grown := if e.id < |r.slots| then r.slots
                 else r.slots + seq(e.id + 1 - |r.slots|, _ => Slot(0, false, map[]));
    Registry(grown[e.id := ForcedSlot(grown[e.id], e.version, destroyed)])
  }

  /** Imposing a handle sets its identifier's slot to the handle's version,
      alive or destroyed as asked, makes the handle valid exactly when it is
      imposed alive, grows the registry with dead slots when the identifier
      is new, and leaves every other slot as it was. */
  lemma ForceEffect(r: Registry, e: Entity, destroyed: bool)
    ensures e.id < |r.slots| ==> Force(r, e, destroyed).slots[e.id] == ForcedSlot(r.slots[e.id], e.version, destroyed)
    ensures e.id >= |r.slots| ==> Force(r, e, destroyed).slots[e.id] == ForcedSlot(Slot(0, false, map[]), e.version, destroyed)
    ensures forall i :: 0 <= i < |r.slots| && i != e.id ==> Force(r, e, destroyed).slots[i] == r.slots[i]
    ensures forall i :: |r.slots| <= i < |Force(r, e, destroyed).slots| && i != e.id ==> !Force(r, e, destroyed).slots[i].alive
    ensures Valid(Force(r, e, destroyed), e) <==> !destroyed
    ensures Current(Force(r, e, destroyed), e) == e.version
    ensures WellFormed(r) ==> WellFormed(Force(r, e, destroyed))
  {
  }

  function ForceAll(r: Registry, es: seq<Entity>, destroyed: bool): Registry
    decreases |es|
  {
    if es == [] then r else ForceAll(Force(r, es[0], destroyed), es[1..], destroyed)
  }

  /** The slot of an alive entity after component `c` is set on it. */
  function PutSlot(prior: Slot, version: nat, c: Component, v: Value): Slot {
    Slot(version, true, prior.components[c := v])
  }

  /** The loader imposes the owner's handle, alive, and sets the component on it. */
  function Put(r: Registry, c: Component, p: (Entity, Value)): (r': Registry)
    ensures |r'.slots| == if p.0.id < |r.slots| then |r.slots| else p.0.id + 1
  {
    var f := Force(r, p.0, false);
    var s := f.slots[p.0.id];
    Registry(f.slots[p.0.id := s.(components := s.components[c := p.1])])
  }

  /** Setting an instance makes its owner valid holding exactly that value
      of type `c`, keeps the owner's other components when it already had a
      slot, and leaves every other slot as it was. */
  lemma PutEffect(r: Registry, c: Component, p: (Entity, Value))
    ensures Valid(Put(r, c, p), p.0) && Has(Put(r, c, p), c, p.0) && Get(Put(r, c, p), c, p.0) == p.1
    ensures p.0.id < |r.slots| ==> Put(r, c, p).slots[p.0.id] == PutSlot(r.slots[p.0.id], p.0.version, c, p.1)
    ensures forall i :: 0 <= i < |r.slots| && i != p.0.id ==> Put(r, c, p).slots[i] == r.slots[i]
    ensures WellFormed(r) && Fits(c, p.1) ==> WellFormed(Put(r, c, p))
  {
    ForceEffect(r, p.0, false);
  }

  function PutAll(r: Registry, c: Component, ps: seq<(Entity, Value)>): Registry
    decreases |ps|
  {
    if ps == [] then r else PutAll(Put(r, c, ps[0]), c, ps[1..])
  }

  /** `orphans()` on the loader: every live entity without components is destroyed. */
  function Orphans(r: Registry): (r': Registry)
    ensures |r'.slots| == |r.slots|
    ensures forall e :: Valid(r', e) <==> Valid(r, e) && !Orphan(r, e)
    ensures forall i :: 0 <= i < |r.slots| ==> r'.slots[i].components == r.slots[i].components
    ensures forall i :: 0 <= i < |r.slots| && !r.slots[i].alive ==> r'.slots[i] == r.slots[i]
    ensures WellFormed(r) ==> WellFormed(r')
  {
    Registry(seq(|r.slots|, i requires 0 <= i < |r.slots| =>
      var s := r.slots[i];
      if s.alive && s.components == map[] then Slot(s.version + 1, false, map[]) else s))
  }

  // ---------------------------------------------------------------------------
  // Loader

  /** The entities carried by a run of entity values. */
  function Decode(ds: seq<Datum>): (es: seq<Entity>)
    requires forall j :: 0 <= j < |ds| ==> ds[j].EntityDatum?
    ensures |es| == |ds|
  {
    seq(|ds|, j requires 0 <= j < |ds| => ds[j].entity)
  }

  /** Instances assembled from a run of handles and a run of components. */
  function Zip(hs: seq<Datum>, vs: seq<Datum>): (ps: seq<(Entity, Value)>)
    requires |hs| == |vs|
    requires forall j :: 0 <= j < |hs| ==> hs[j].EntityDatum? && vs[j].ComponentDatum?
    ensures |ps| == |hs|
  {
    seq(|hs|, j requires 0 <= j < |hs| => (hs[j].entity, vs[j].value))
  }

  lemma DecodeCons(q: seq<Datum>, n: nat)
    requires 0 < n <= |q|
    requires forall j :: 0 <= j < n ==> q[j].EntityDatum?
    ensures q[1..][n - 1..] == q[n..]
    ensures Decode(q[..n]) == [q[0].entity] + Decode(q[1..][..n - 1])
  {
  }

  lemma ZipCons(qe: seq<Datum>, qc: seq<Datum>, n: nat)
    requires 0 < n <= |qe| && n <= |qc|
    requires forall j :: 0 <= j < n ==> qe[j].EntityDatum? && qc[j].ComponentDatum?
    ensures qe[1..][n - 1..] == qe[n..] && qc[1..][n - 1..] == qc[n..]
    ensures Zip(qe[..n], qc[..n]) == [(qe[0].entity, qc[0].value)] + Zip(qe[1..][..n - 1], qc[1..][..n - 1])
  {
  }

  /** Reads the count that opens a record. */
  function ReadCount(s: Storage): (o: Option<(nat, Storage)>)
    requires EntityTag in s
    ensures o.Some? <==> s[EntityTag] != [] && s[EntityTag][0].CountDatum?
    ensures o.Some? ==> o.value.0 == s[EntityTag][0].count
    ensures o.Some? ==> o.value.1 == s[EntityTag := s[EntityTag][1..]]
  {
    if s[EntityTag] == [] then None
    else
      var (d, s1) := Archive.Read(s, EntityTag);
      if d.CountDatum? then Some((d.count, s1)) else None
  }

  /** Reads `n` handles and imposes each on the registry as it is read. */
  function LoadHandles(r: Registry, s: Storage, n: nat, destroyed: bool): (o: Option<(Registry, Storage)>)
    requires EntityTag in s
    ensures o.Some? ==> o.value.1.Keys == s.Keys
    decreases n
  {
    if n == 0 then Some((r, s))
    else if s[EntityTag] == [] || !s[EntityTag][0].EntityDatum? then None
    else
      var (d, s1) := Archive.Read(s, EntityTag);
      LoadHandles(Force(r, d.entity, destroyed), s1, n - 1, destroyed)
  }

  /** The entity queue opens with `n` handles. */
  predicate OpensWithHandles(q: seq<Datum>, n: nat) {
    n <= |q| && forall j :: 0 <= j < n ==> q[j].EntityDatum?
  }

  /** A queue opening with a handle opens with `n` handles exactly when its
      tail opens with `n - 1`. */
  lemma OpensWithHandlesCons(q: seq<Datum>, n: nat)
    requires 0 < n && q != [] && q[0].EntityDatum?
    ensures OpensWithHandles(q, n) <==> OpensWithHandles(q[1..], n - 1)
  {
    if OpensWithHandles(q[1..], n - 1) {
      forall j | 0 <= j < n ensures q[j].EntityDatum? {
        if j > 0 { assert q[j] == q[1..][j - 1]; }
      }
    }
  }

  /** When the entity queue opens with `n` handles, reading them consumes
      exactly those and imposes them in order. */
  lemma {:induction false} LoadHandlesReads(r: Registry, s: Storage, n: nat, destroyed: bool)
    requires EntityTag in s && OpensWithHandles(s[EntityTag], n)
    ensures LoadHandles(r, s, n, destroyed)
         == Some((ForceAll(r, Decode(s[EntityTag][..n]), destroyed),
                  s[EntityTag := s[EntityTag][n..]]))
    decreases n
  {
    var q := s[EntityTag];
    if n == 0 {
      assert s[EntityTag := q[0..]] == s;
      assert Decode(q[..0]) == [];
    } else {
      var (d, s1) := Archive.Read(s, EntityTag);
      assert s1 == s[EntityTag := q[1..]];
      assert OpensWithHandles(q[1..], n - 1) by {
        forall j | 0 <= j < n - 1 ensures q[1..][j] == q[j + 1] { }
      }
      LoadHandlesReads(Force(r, d.entity, destroyed), s1, n - 1, destroyed);
      DecodeCons(q, n);
      assert s1[EntityTag := q[1..][n - 1..]] == s[EntityTag := q[n..]];
    }
  }

  /** When the entity queue does not open with `n` handles, reading them fails. */
  lemma {:induction false} LoadHandlesFails(r: Registry, s: Storage, n: nat, destroyed: bool)
    requires EntityTag in s && !OpensWithHandles(s[EntityTag], n)
    ensures LoadHandles(r, s, n, destroyed) == None
    decreases n
  {
    var q := s[EntityTag];
    if n == 0 {
      assert false;
    } else if q != [] && q[0].EntityDatum? {
      var (d, s1) := Archive.Read(s, EntityTag);
      assert s1[EntityTag] == q[1..];
      OpensWithHandlesCons(q, n);
      LoadHandlesFails(Force(r, d.entity, destroyed), s1, n - 1, destroyed);
    }
  }

  /** A count, then that many handles. */
  function LoadRecord(r: Registry, s: Storage, destroyed: bool): (o: Option<(Registry, Storage)>)
    requires EntityTag in s
    ensures o.Some? ==> o.value.1.Keys == s.Keys
  {
    var (n, s1) :- ReadCount(s);
    LoadHandles(r, s1, n, destroyed)
  }

  /** `loader().entities(archive)` */
  function LoadEntities(r: Registry, s: Storage): (o: Option<(Registry, Storage)>)
    requires EntityTag in s
    ensures o.Some? ==> o.value.1.Keys == s.Keys
  {
    LoadRecord(r, s, false)
  }

  /** `loader().destroyed(archive)` */
  function LoadDestroyed(r: Registry, s: Storage): (o: Option<(Registry, Storage)>)
    requires EntityTag in s
    ensures o.Some? ==> o.value.1.Keys == s.Keys
  {
    LoadRecord(r, s, true)
  }

  /** Reads `n` instances of component `c`, each as a handle then a component. */
  function LoadPairs(r: Registry, s: Storage, c: Component, n: nat): (o: Option<(Registry, Storage)>)
    requires EntityTag in s && ComponentTag(c) in s
    ensures o.Some? ==> o.value.1.Keys == s.Keys
    decreases n
  {
    if n == 0 then Some((r, s))
    else if s[EntityTag] == [] || !s[EntityTag][0].EntityDatum? then None
    else
      var (d, s1) := Archive.Read(s, EntityTag);
      if s1[ComponentTag(c)] == [] || !s1[ComponentTag(c)][0].ComponentDatum? then None
      else
        var (v, s2) := Archive.Read(s1, ComponentTag(c));
        LoadPairs(Put(r, c, (d.entity, v.value)), s2, c, n - 1)
  }

  /** The entity queue opens with `n` handles and the component queue with `n` components. */
  predicate OpensWithPairs(qe: seq<Datum>, qc: seq<Datum>, n: nat) {
    n <= |qe| && n <= |qc| && forall j :: 0 <= j < n ==> qe[j].EntityDatum? && qc[j].ComponentDatum?
  }

  /** The storage after `n` handles and `n` components of type `c` are consumed. */
  function Consumed(s: Storage, c: Component, n: nat): Storage
    requires EntityTag in s && ComponentTag(c) in s
    requires n <= |s[EntityTag]| && n <= |s[ComponentTag(c)]|
  {
    s[EntityTag := s[EntityTag][n..]][ComponentTag(c) := s[ComponentTag(c)][n..]]
  }

  /** Storage whose queues open with a pair opens with `n` pairs exactly
      when, that pair consumed, it opens with `n - 1`. */
  lemma OpensWithPairsCons(s: Storage, c: Component, n: nat)
    requires EntityTag in s && ComponentTag(c) in s && 0 < n
    requires s[EntityTag] != [] && s[EntityTag][0].EntityDatum?
    requires s[ComponentTag(c)] != [] && s[ComponentTag(c)][0].ComponentDatum?
    ensures OpensWithPairs(s[EntityTag], s[ComponentTag(c)], n)
        <==> OpensWithPairs(Consumed(s, c, 1)[EntityTag], Consumed(s, c, 1)[ComponentTag(c)], n - 1)
  {
    var qe, qc := s[EntityTag], s[ComponentTag(c)];
    assert Consumed(s, c, 1)[EntityTag] == qe[1..] && Consumed(s, c, 1)[ComponentTag(c)] == qc[1..];
    if OpensWithPairs(qe[1..], qc[1..], n - 1) {
      forall j | 0 <= j < n ensures qe[j].EntityDatum? && qc[j].ComponentDatum? {
        if j > 0 { assert qe[j] == qe[1..][j - 1] && qc[j] == qc[1..][j - 1]; }
      }
    }
  }

  /** When the queues open with `n` instances of `c`, reading them consumes
      exactly those, leaves every other queue alone, and sets the instances
      in order. */
  lemma {:induction false} LoadPairsReads(r: Registry, s: Storage, c: Component, n: nat)
    requires EntityTag in s && ComponentTag(c) in s && OpensWithPairs(s[EntityTag], s[ComponentTag(c)], n)
    ensures LoadPairs(r, s, c, n) == Some((PutAll(r, c, Zip(s[EntityTag][..n], s[ComponentTag(c)][..n])), Consumed(s, c, n)))
    decreases n
  {
    var qe, qc := s[EntityTag], s[ComponentTag(c)];
    if n == 0 {
      assert Zip(qe[..0], qc[..0]) == [];
      assert Consumed(s, c, 0) == s;
    } else {
      OpensWithPairsCons(s, c, n);
      LoadPairsReads(Put(r, c, (qe[0].entity, qc[0].value)), Consumed(s, c, 1), c, n - 1);
      LoadPairsStep(r, s, c, n);
    }
  }

  /** The inductive step of `LoadPairsReads`: one instance, then the rest. */
  lemma LoadPairsStep(r: Registry, s: Storage, c: Component, n: nat)
    requires EntityTag in s && ComponentTag(c) in s && 0 < n && OpensWithPairs(s[EntityTag], s[ComponentTag(c)], n)
    requires
      var p := (s[EntityTag][0].entity, s[ComponentTag(c)][0].value);
      LoadPairs(Put(r, c, p), Consumed(s, c, 1), c, n - 1)
        == Some((PutAll(Put(r, c, p), c, Zip(Consumed(s, c, 1)[EntityTag][..n - 1],
                                             Consumed(s, c, 1)[ComponentTag(c)][..n - 1])),
                 Consumed(Consumed(s, c, 1), c, n - 1)))
    ensures LoadPairs(r, s, c, n) == Some((PutAll(r, c, Zip(s[EntityTag][..n], s[ComponentTag(c)][..n])), Consumed(s, c, n)))
  {
    var qe, qc := s[EntityTag], s[ComponentTag(c)];
    var p := (qe[0].entity, qc[0].value);
    assert Consumed(s, c, 1)[EntityTag] == qe[1..] && Consumed(s, c, 1)[ComponentTag(c)] == qc[1..];
    LoadPairsCons(r, s, c, n);
    var rest := Zip(qe[1..][..n - 1], qc[1..][..n - 1]);
    ZipCons(qe, qc, n);
    assert PutAll(r, c, [p] + rest) == PutAll(Put(r, c, p), c, rest) by {
      assert ([p] + rest)[0] == p && ([p] + rest)[1..] == rest;
    }
    ConsumedTwice(s, c, n);
  }

  /** Reading instances begins with one handle and one component. */
  lemma LoadPairsCons(r: Registry, s: Storage, c: Component, n: nat)
    requires EntityTag in s && ComponentTag(c) in s && 0 < n
    requires s[EntityTag] != [] && s[EntityTag][0].EntityDatum?
    requires s[ComponentTag(c)] != [] && s[ComponentTag(c)][0].ComponentDatum?
    ensures LoadPairs(r, s, c, n)
         == LoadPairs(Put(r, c, (s[EntityTag][0].entity, s[ComponentTag(c)][0].value)),
                      Consumed(s, c, 1), c, n - 1)
  {
    var qe, qc := s[EntityTag], s[ComponentTag(c)];
    var s1 := s[EntityTag := qe[1..]];
    assert Archive.Read(s, EntityTag) == (qe[0], s1);
    assert Archive.Read(s1, ComponentTag(c)) == (qc[0], Consumed(s, c, 1));
  }

  /** Consuming one instance and then `n - 1` more consumes `n`. */
  lemma ConsumedTwice(s: Storage, c: Component, n: nat)
    requires EntityTag in s && ComponentTag(c) in s
    requires 0 < n <= |s[EntityTag]| && n <= |s[ComponentTag(c)]|
    ensures Consumed(Consumed(s, c, 1), c, n - 1) == Consumed(s, c, n)
  {
    var s2 := Consumed(s, c, 1);
    assert s2[EntityTag][n - 1..] == s[EntityTag][n..] && s2[ComponentTag(c)][n - 1..] == s[ComponentTag(c)][n..];
    Archive.Extensionality(Consumed(s2, c, n - 1), Consumed(s, c, n));
  }

  /** When the queues do not open with `n` instances of `c`, reading them fails. */
  lemma {:induction false} LoadPairsFails(r: Registry, s: Storage, c: Component, n: nat)
    requires EntityTag in s && ComponentTag(c) in s && !OpensWithPairs(s[EntityTag], s[ComponentTag(c)], n)
    ensures LoadPairs(r, s, c, n) == None
    decreases n
  {
    var qe, qc := s[EntityTag], s[ComponentTag(c)];
    if n == 0 {
      assert false;
    } else if qe != [] && qe[0].EntityDatum? && qc != [] && qc[0].ComponentDatum? {
      OpensWithPairsCons(s, c, n);
      LoadPairsFails(Put(r, c, (qe[0].entity, qc[0].value)), Consumed(s, c, 1), c, n - 1);
      LoadPairsCons(r, s, c, n);
    } else {
      LoadPairsStops(r, s, c, n);
    }
  }

  /** Reading a pair fails when either queue does not open with its half. */
  lemma LoadPairsStops(r: Registry, s: Storage, c: Component, n: nat)
    requires EntityTag in s && ComponentTag(c) in s && 0 < n
    requires !(&& s[EntityTag] != [] && s[EntityTag][0].EntityDatum?
               && s[ComponentTag(c)] != [] && s[ComponentTag(c)][0].ComponentDatum?)
    ensures LoadPairs(r, s, c, n) == None
  {
    if s[EntityTag] != [] && s[EntityTag][0].EntityDatum? {
      var (d, s1) := Archive.Read(s, EntityTag);
      assert s1[ComponentTag(c)] == s[ComponentTag(c)];
    }
  }

  /** A count, then that many instances of component `c`. */
  function LoadComponentRecord(r: Registry, s: Storage, c: Component): (o: Option<(Registry, Storage)>)
    requires EntityTag in s && ComponentTag(c) in s
    ensures o.Some? ==> o.value.1.Keys == s.Keys
  {
    var (n, s1) :- ReadCount(s);
    LoadPairs(r, s1, c, n)
  }

  /** `loader().component<cs...>(archive)`: a component record for each listed type in turn. */
  function LoadComponents(r: Registry, s: Storage, cs: seq<Component>): (o: Option<(Registry, Storage)>)
    requires Declares(s, cs)
    ensures o.Some? ==> o.value.1.Keys == s.Keys
    decreases |cs|
  {
    if cs == [] then Some((r, s))
    else
      var (r1, s1) :- LoadComponentRecord(r, s, cs[0]);
      LoadComponents(r1, s1, cs[1..])
  }

  /** The loader of the tests: entities, destroyed entities, the listed
      component types, and `orphans()` when asked for. */
  function Restore(r: Registry, cs: seq<Component>, s: Storage, orphans: bool): (o: Option<(Registry, Storage)>)
    requires Declares(s, cs)
    ensures o.Some? ==> o.value.1.Keys == s.Keys
  {
    var (r1, s1) :- LoadEntities(r, s);
    var (r2, s2) :- LoadDestroyed(r1, s1);
    var (r3, s3) :- LoadComponents(r2, s2, cs);
    Some((if orphans then Orphans(r3) else r3, s3))
  }

  // ---------------------------------------------------------------------------
  // What the records put in each queue

  function EntityDatums(es: seq<Entity>): (ds: seq<Datum>)
    ensures |ds| == |es|
    ensures forall j :: 0 <= j < |ds| ==> ds[j].EntityDatum?
    ensures Decode(ds) == es
  {
    seq(|es|, i requires 0 <= i < |es| => EntityDatum(es[i]))
  }

  function Owners(ps: seq<(Entity, Value)>): (ds: seq<Datum>)
    ensures |ds| == |ps|
  {
    seq(|ps|, i requires 0 <= i < |ps| => EntityDatum(ps[i].0))
  }

  function ComponentDatums(ps: seq<(Entity, Value)>): (ds: seq<Datum>)
    ensures |ds| == |ps|
  {
    seq(|ps|, i requires 0 <= i < |ps| => ComponentDatum(ps[i].1))
  }

  lemma {:induction false} ProjectEntityItems(es: seq<Entity>, t: Tag)
    ensures Archive.Project(EntityItems(es), t) == if t == EntityTag then EntityDatums(es) else []
    decreases |es|
  {
    if es != [] {
      assert EntityItems(es)[1..] == EntityItems(es[1..]);
      ProjectEntityItems(es[1..], t);
      assert EntityDatums(es) == [EntityDatum(es[0])] + EntityDatums(es[1..]);
    }
  }

  /** What an entities record puts in the queue of type `t`. */
  function RecordDatums(es: seq<Entity>, t: Tag): seq<Datum> {
    if t == EntityTag then [CountDatum(|es|)] + EntityDatums(es) else []
  }

  lemma ProjectEntitiesRecord(es: seq<Entity>)
    ensures forall i :: 0 <= i < |EntitiesRecord(es)| ==> EntitiesRecord(es)[i].0 == EntityTag
    ensures forall t :: Archive.Project(EntitiesRecord(es), t) == RecordDatums(es, t)
  {
    forall t ensures Archive.Project(EntitiesRecord(es), t) == RecordDatums(es, t) {
      ProjectEntityItems(es, t);
      assert EntitiesRecord(es)[1..] == EntityItems(es);
    }
  }

  lemma OwnersCons(ps: seq<(Entity, Value)>)
    requires ps != []
    ensures Owners(ps) == [EntityDatum(ps[0].0)] + Owners(ps[1..])
  {
    var want := [EntityDatum(ps[0].0)] + Owners(ps[1..]);
    forall j | 0 <= j < |ps| ensures Owners(ps)[j] == want[j] {
      if j > 0 { assert want[j] == Owners(ps[1..])[j - 1]; }
    }
  }

  lemma ComponentDatumsCons(ps: seq<(Entity, Value)>)
    requires ps != []
    ensures ComponentDatums(ps) == [ComponentDatum(ps[0].1)] + ComponentDatums(ps[1..])
  {
    var want := [ComponentDatum(ps[0].1)] + ComponentDatums(ps[1..]);
    forall j | 0 <= j < |ps| ensures ComponentDatums(ps)[j] == want[j] {
      if j > 0 { assert want[j] == ComponentDatums(ps[1..])[j - 1]; }
    }
  }

  /** The handles a component record queues are its owners, in order. */
  lemma {:induction false} ProjectPairOwners(c: Component, ps: seq<(Entity, Value)>)
    ensures Archive.Project(PairItems(c, ps), EntityTag) == Owners(ps)
    decreases |ps|
  {
    if ps != [] {
      var e, v := (EntityTag, EntityDatum(ps[0].0)), (ComponentTag(c), ComponentDatum(ps[0].1));
      assert PairItems(c, ps) == [e, v] + PairItems(c, ps[1..]);
      Archive.ProjectAppend([e, v], PairItems(c, ps[1..]), EntityTag);
      ProjectPairOwners(c, ps[1..]);
      OwnersCons(ps);
    }
  }

  /** The instances a component record queues are its values, in order. */
  lemma {:induction false} ProjectPairValues(c: Component, ps: seq<(Entity, Value)>)
    ensures Archive.Project(PairItems(c, ps), ComponentTag(c)) == ComponentDatums(ps)
    decreases |ps|
  {
    if ps != [] {
      var e, v := (EntityTag, EntityDatum(ps[0].0)), (ComponentTag(c), ComponentDatum(ps[0].1));
      assert PairItems(c, ps) == [e, v] + PairItems(c, ps[1..]);
      Archive.ProjectAppend([e, v], PairItems(c, ps[1..]), ComponentTag(c));
      ProjectPairValues(c, ps[1..]);
      ComponentDatumsCons(ps);
    }
  }

  /** A component record queues nothing under any other tag. */
  lemma {:induction false} ProjectPairOther(c: Component, ps: seq<(Entity, Value)>, t: Tag)
    requires t != EntityTag && t != ComponentTag(c)
    ensures Archive.Project(PairItems(c, ps), t) == []
    decreases |ps|
  {
    if ps != [] {
      var e, v := (EntityTag, EntityDatum(ps[0].0)), (ComponentTag(c), ComponentDatum(ps[0].1));
      assert PairItems(c, ps) == [e, v] + PairItems(c, ps[1..]);
      Archive.ProjectAppend([e, v], PairItems(c, ps[1..]), t);
      ProjectPairOther(c, ps[1..], t);
    }
  }

  lemma ProjectPairItems(c: Component, ps: seq<(Entity, Value)>, t: Tag)
    ensures Archive.Project(PairItems(c, ps), t) ==
      if t == EntityTag then Owners(ps) else if t == ComponentTag(c) then ComponentDatums(ps) else []
  {
    if t == EntityTag {
      ProjectPairOwners(c, ps);
    } else if t == ComponentTag(c) {
      ProjectPairValues(c, ps);
    } else {
      ProjectPairOther(c, ps, t);
    }
  }

  lemma {:induction false} PairItemsTags(c: Component, ps: seq<(Entity, Value)>)
    ensures forall i :: 0 <= i < |PairItems(c, ps)| ==> PairItems(c, ps)[i].0 in {EntityTag, ComponentTag(c)}
    decreases |ps|
  {
    if ps != [] {
      PairItemsTags(c, ps[1..]);
    }
  }

  lemma {:induction false} AdmitsComponentsRecord(r: Registry, cs: seq<Component>, s: Storage)
    requires Declares(s, cs)
    ensures Archive.Admits(s, ComponentsRecord(r, cs))
    decreases |cs|
  {
    if cs != [] {
      var ps := Instances(r.slots, |r.slots|, cs[0]);
      PairItemsTags(cs[0], ps);
      assert Declares(s, cs[1..]) by {
        forall i | 0 <= i < |cs| - 1 ensures ComponentTag(cs[1..][i]) in s { assert cs[1..][i] == cs[i + 1]; }
      }
      AdmitsComponentsRecord(r, cs[1..], s);
    }
  }

  lemma {:induction false} ProjectComponentsRecordOther(r: Registry, cs: seq<Component>)
    ensures forall c :: c !in cs ==> Archive.Project(ComponentsRecord(r, cs), ComponentTag(c)) == []
    decreases |cs|
  {
    if cs != [] {
      var ps := Instances(r.slots, |r.slots|, cs[0]);
      ProjectComponentsRecordOther(r, cs[1..]);
      forall c | c !in cs ensures Archive.Project(ComponentsRecord(r, cs), ComponentTag(c)) == [] {
        var head := [(EntityTag, CountDatum(|ps|))] + PairItems(cs[0], ps);
        Archive.ProjectAppend(head, ComponentsRecord(r, cs[1..]), ComponentTag(c));
        Archive.ProjectAppend([(EntityTag, CountDatum(|ps|))], PairItems(cs[0], ps), ComponentTag(c));
        ProjectPairItems(cs[0], ps, ComponentTag(c));
      }
    }
  }

  // ---------------------------------------------------------------------------
  // The registry a snapshot of some component types records

  /** The components whose type is listed. */
  function Keep(comps: map<Component, Value>, cs: seq<Component>): (kept: map<Component, Value>)
    ensures forall c :: c in kept <==> c in comps && c in cs
    ensures forall c :: c in kept ==> kept[c] == comps[c]
  {
    map c | c in comps && c in cs :: comps[c]
  }

  /** The registry as a snapshot of the listed component types records it:
      every identifier at the same version and liveness, holding only the
      components of listed types. */
  function Restrict(r: Registry, cs: seq<Component>): (r': Registry)
    ensures |r'.slots| == |r.slots|
  {
    Registry(seq(|r.slots|, i requires 0 <= i < |r.slots| =>
      var s := r.slots[i];
      Slot(s.version, s.alive, Keep(s.components, cs))))
  }

  /** What the restricted registry answers: the same handles are valid and
      at the same versions, an entity has a component exactly when it had
      one of a listed type, with the same value, and a pool is empty
      exactly when its type is not listed or it was empty. */
  lemma RestrictView(r: Registry, cs: seq<Component>)
    ensures forall i :: 0 <= i < |r.slots| ==> Restrict(r, cs).slots[i].version == r.slots[i].version
    ensures forall e :: Valid(Restrict(r, cs), e) <==> Valid(r, e)
    ensures forall e, c :: Valid(r, e) ==> (Has(Restrict(r, cs), c, e) <==> c in cs && Has(r, c, e))
    ensures forall e, c :: Valid(r, e) && c in cs && Has(r, c, e) ==> Get(Restrict(r, cs), c, e) == Get(r, c, e)
    ensures forall c :: EmptyPool(Restrict(r, cs), c) <==> c !in cs || EmptyPool(r, c)
    ensures WellFormed(r) ==> WellFormed(Restrict(r, cs))
  {
    var r' := Restrict(r, cs);
    forall c ensures EmptyPool(r', c) <==> c !in cs || EmptyPool(r, c) {
      if c in cs && !EmptyPool(r, c) {
        var i :| 0 <= i < |r.slots| && c in r.slots[i].components;
        assert c in r'.slots[i].components;
      }
    }
  }

  /** Adding type `c` to the listed types adds exactly the component of type `c`. */
  lemma KeepAdd(comps: map<Component, Value>, done: seq<Component>, c: Component)
    ensures c in comps ==> Keep(comps, done)[c := comps[c]] == Keep(comps, done + [c])
    ensures c !in comps ==> Keep(comps, done) == Keep(comps, done + [c])
  {
  }

  // ---------------------------------------------------------------------------
  // Loading, step by step, what a snapshot wrote

  lemma {:induction false} ForceAllAppend(r: Registry, es: seq<Entity>, e: Entity, destroyed: bool)
    ensures ForceAll(r, es + [e], destroyed) == Force(ForceAll(r, es, destroyed), e, destroyed)
    decreases |es|
  {
    if es == [] {
      assert es + [e] == [e];
    } else {
      assert (es + [e])[0] == es[0];
      assert (es + [e])[1..] == es[1..] + [e];
      ForceAllAppend(Force(r, es[0], destroyed), es[1..], e, destroyed);
    }
  }

  lemma {:induction false} PutAllAppend(r: Registry, c: Component, ps: seq<(Entity, Value)>, p: (Entity, Value))
    ensures PutAll(r, c, ps + [p]) == Put(PutAll(r, c, ps), c, p)
    decreases |ps|
  {
    if ps == [] {
      assert ps + [p] == [p];
    } else {
      assert (ps + [p])[0] == ps[0];
      assert (ps + [p])[1..] == ps[1..] + [p];
      PutAllAppend(Put(r, c, ps[0]), c, ps[1..], p);
    }
  }

  /** Slot `i` of `base` once the handles of `r` below `k` with liveness `alive` are imposed on it. */
  function HandleEffect(r: Registry, base: Registry, k: nat, alive: bool, i: nat): Slot
    requires k <= |r.slots| == |base.slots| && i < |base.slots|
  {
    if i < k && r.slots[i].alive == alive then ForcedSlot(base.slots[i], r.slots[i].version, !alive) else base.slots[i]
  }

  /** Slot `i` of `base` once the instances of `c` in `r` below `k` are set on it. */
  function InstanceEffect(r: Registry, base: Registry, c: Component, k: nat, i: nat): Slot
    requires k <= |r.slots| == |base.slots| && i < |base.slots|
  {
    if i < k && c in r.slots[i].components
    then PutSlot(base.slots[i], r.slots[i].version, c, r.slots[i].components[c])
    else base.slots[i]
  }

  /** Imposing the handles of `r` below `k` on a registry of the same size
      changes exactly the slots of those handles. */
  lemma {:induction false} ForceHandles(r: Registry, base: Registry, k: nat, alive: bool)
    requires k <= |r.slots| == |base.slots|
    ensures |ForceAll(base, Handles(r.slots, k, alive), !alive).slots| == |base.slots|
    ensures forall i :: 0 <= i < |base.slots| ==>
      ForceAll(base, Handles(r.slots, k, alive), !alive).slots[i] == HandleEffect(r, base, k, alive, i)
    decreases k
  {
    if k > 0 {
      ForceHandles(r, base, k - 1, alive);
      var prev := Handles(r.slots, k - 1, alive);
      var before := ForceAll(base, prev, !alive);
      if r.slots[k - 1].alive == alive {
        var e := Entity(k - 1, r.slots[k - 1].version);
        ForceAllAppend(base, prev, e, !alive);
        assert Handles(r.slots, k, alive) == prev + [e];
        var after := Force(before, e, !alive);
        forall i | 0 <= i < |base.slots| ensures after.slots[i] == HandleEffect(r, base, k, alive, i) {
          assert before.slots[i] == HandleEffect(r, base, k - 1, alive, i);
          if i != k - 1 {
            assert after.slots[i] == before.slots[i];
          }
        }
      } else {
        assert Handles(r.slots, k, alive) == prev;
        forall i | 0 <= i < |base.slots| ensures before.slots[i] == HandleEffect(r, base, k, alive, i) {
          assert before.slots[i] == HandleEffect(r, base, k - 1, alive, i);
        }
      }
    }
  }

  /** One more instance of `c`, that of identifier `k - 1`, imposed on top of the first `k - 1`. */
  lemma PutInstanceStep(r: Registry, base: Registry, c: Component, k: nat, before: Registry)
    requires 0 < k <= |r.slots| == |base.slots| == |before.slots|
    requires c in r.slots[k - 1].components
    requires forall i :: 0 <= i < |base.slots| ==> before.slots[i] == InstanceEffect(r, base, c, k - 1, i)
    ensures |Put(before, c, (Entity(k - 1, r.slots[k - 1].version), r.slots[k - 1].components[c])).slots| == |base.slots|
    ensures forall i :: 0 <= i < |base.slots| ==>
      Put(before, c, (Entity(k - 1, r.slots[k - 1].version), r.slots[k - 1].components[c])).slots[i]
        == InstanceEffect(r, base, c, k, i)
  {
    var after := Put(before, c, (Entity(k - 1, r.slots[k - 1].version), r.slots[k - 1].components[c]));
    forall i | 0 <= i < |base.slots| ensures after.slots[i] == InstanceEffect(r, base, c, k, i) {
      assert before.slots[i] == InstanceEffect(r, base, c, k - 1, i);
    }
  }

  /** Setting the instances of `c` found in `r` below `k` on a registry of
      the same size changes exactly the slots of their owners. */
  lemma {:induction false} PutInstances(r: Registry, base: Registry, c: Component, k: nat)
    requires k <= |r.slots| == |base.slots|
    ensures |PutAll(base, c, Instances(r.slots, k, c)).slots| == |base.slots|
    ensures forall i :: 0 <= i < |base.slots| ==>
      PutAll(base, c, Instances(r.slots, k, c)).slots[i] == InstanceEffect(r, base, c, k, i)
    decreases k
  {
    if k > 0 {
      PutInstances(r, base, c, k - 1);
      var prev := Instances(r.slots, k - 1, c);
      var before := PutAll(base, c, prev);
      var s := r.slots[k - 1];
      if c in s.components {
        var p := (Entity(k - 1, s.version), s.components[c]);
        PutAllAppend(base, c, prev, p);
        assert Instances(r.slots, k, c) == prev + [p];
        PutInstanceStep(r, base, c, k, before);
      } else {
        assert Instances(r.slots, k, c) == prev;
        forall i | 0 <= i < |base.slots| ensures before.slots[i] == InstanceEffect(r, base, c, k, i) {
          assert before.slots[i] == InstanceEffect(r, base, c, k - 1, i);
        }
      }
    }
  }

  /** Loading the live then the destroyed handles of `r` onto its reset
      restores every identifier's version and liveness, with no components. */
  lemma HandlesStage(r: Registry)
    requires WellFormed(r)
    ensures ForceAll(ForceAll(Reset(r), Handles(r.slots, |r.slots|, true), false), Handles(r.slots, |r.slots|, false), true)
         == Restrict(r, [])
  {
    var n := |r.slots|;
    var r0 := Reset(r);
    var r1 := ForceAll(r0, Handles(r.slots, n, true), false);
    ForceHandles(r, r0, n, true);
    var r2 := ForceAll(r1, Handles(r.slots, n, false), true);
    ForceHandles(r, r1, n, false);
    var want := Restrict(r, []);
    forall i | 0 <= i < n ensures r2.slots[i] == want.slots[i] {
      var slot := r.slots[i];
      assert r0.slots[i].components == map[];
      assert Keep(slot.components, []).Keys == {};
      assert Keep(slot.components, []) == map[];
      assert want.slots[i] == Slot(slot.version, slot.alive, map[]);
      assert r1.slots[i] == HandleEffect(r, r0, n, true, i);
      assert r2.slots[i] == HandleEffect(r, r1, n, false, i);
    }
    assert r2.slots == want.slots;
  }

  /** Loading the instances of `c` onto `r` restricted to `done` adds `c` to the restriction. */
  lemma ComponentStage(r: Registry, done: seq<Component>, c: Component)
    requires WellFormed(r)
    ensures PutAll(Restrict(r, done), c, Instances(r.slots, |r.slots|, c)) == Restrict(r, done + [c])
  {
    var n := |r.slots|;
    var base := Restrict(r, done);
    var got := PutAll(base, c, Instances(r.slots, n, c));
    PutInstances(r, base, c, n);
    var want := Restrict(r, done + [c]);
    forall i | 0 <= i < n ensures got.slots[i] == want.slots[i] {
      var comps := r.slots[i].components;
      KeepAdd(comps, done, c);
      assert got.slots[i] == InstanceEffect(r, base, c, n, i);
    }
    assert got.slots == want.slots;
  }

  /** A storage whose entity queue holds an entities record of `es` in
      front of what `target` holds, and which otherwise is `target`, loads
      that record as `es` and leaves `target`. */
  lemma LoadRecordFromQueues(base: Registry, es: seq<Entity>, s: Storage, target: Storage, destroyed: bool)
    requires s.Keys == target.Keys && EntityTag in s
    requires s[EntityTag] == [CountDatum(|es|)] + EntityDatums(es) + target[EntityTag]
    requires forall t :: t in s && t != EntityTag ==> s[t] == target[t]
    ensures LoadRecord(base, s, destroyed) == Some((ForceAll(base, es, destroyed), target))
  {
    var q := EntityDatums(es) + target[EntityTag];
    var s1 := s[EntityTag := q];
    assert s[EntityTag][1..] == q;
    assert ReadCount(s) == Some((|es|, s1));
    assert q[..|es|] == EntityDatums(es);
    assert q[|es|..] == target[EntityTag];
    var o := LoadHandles(base, s1, |es|, destroyed);
    assert OpensWithHandles(q, |es|);
    LoadHandlesReads(base, s1, |es|, destroyed);
    assert s1[EntityTag := q[|es|..]] == target by {
      var left := s1[EntityTag := q[|es|..]];
      assert left.Keys == target.Keys;
      forall t | t in left ensures left[t] == target[t] {
      }
      Archive.Extensionality(left, target);
    }
  }

  /** What a component record of `c` puts in the queue of type `t`. */
  function PairRecordDatums(c: Component, ps: seq<(Entity, Value)>, t: Tag): seq<Datum> {
    if t == EntityTag then [CountDatum(|ps|)] + Owners(ps)
    else if t == ComponentTag(c) then ComponentDatums(ps)
    else []
  }

  /** A storage whose entity and `c` queues hold a component record of `ps`
      in front of what `target` holds, and which otherwise is `target`,
      loads that record as `ps` and leaves `target`. */
  lemma LoadComponentRecordFromQueues(base: Registry, c: Component, ps: seq<(Entity, Value)>, s: Storage, target: Storage)
    requires s.Keys == target.Keys && EntityTag in s && ComponentTag(c) in s
    requires s[EntityTag] == [CountDatum(|ps|)] + Owners(ps) + target[EntityTag]
    requires s[ComponentTag(c)] == ComponentDatums(ps) + target[ComponentTag(c)]
    requires forall t :: t in s && t != EntityTag && t != ComponentTag(c) ==> s[t] == target[t]
    ensures LoadComponentRecord(base, s, c) == Some((PutAll(base, c, ps), target))
  {
    var qe := Owners(ps) + target[EntityTag];
    var qc := s[ComponentTag(c)];
    var s1 := s[EntityTag := qe];
    assert s[EntityTag][1..] == qe;
    assert ReadCount(s) == Some((|ps|, s1));
    assert qe[..|ps|] == Owners(ps) && qc[..|ps|] == ComponentDatums(ps);
    assert Zip(Owners(ps), ComponentDatums(ps)) == ps;
    assert OpensWithPairs(qe, qc, |ps|);
    LoadPairsReads(base, s1, c, |ps|);
    assert qe[|ps|..] == target[EntityTag] && qc[|ps|..] == target[ComponentTag(c)];
    ConsumedLeaves(s1, c, |ps|, target);
  }

  /** Consuming `n` pairs leaves `target` when that is what follows them. */
  lemma ConsumedLeaves(s: Storage, c: Component, n: nat, target: Storage)
    requires s.Keys == target.Keys && EntityTag in s && ComponentTag(c) in s
    requires n <= |s[EntityTag]| && n <= |s[ComponentTag(c)]|
    requires s[EntityTag][n..] == target[EntityTag] && s[ComponentTag(c)][n..] == target[ComponentTag(c)]
    requires forall t :: t in s && t != EntityTag && t != ComponentTag(c) ==> s[t] == target[t]
    ensures Consumed(s, c, n) == target
  {
    var left := Consumed(s, c, n);
    forall t | t in left ensures left[t] == target[t] { }
    Archive.Extensionality(left, target);
  }

  /** The registry the loader builds from `base` by imposing, type by type,
      the instances `r` holds of each type in `cs`. */
  function PutRecords(base: Registry, r: Registry, cs: seq<Component>): Registry
    decreases |cs|
  {
    if cs == [] then base
    else PutRecords(PutAll(base, cs[0], Instances(r.slots, |r.slots|, cs[0])), r, cs[1..])
  }

  /** Imposing the instances of `cs` onto `r` restricted to `done` extends the restriction by `cs`. */
  lemma {:induction false} PutRecordsRestrict(r: Registry, done: seq<Component>, cs: seq<Component>)
    requires WellFormed(r)
    ensures PutRecords(Restrict(r, done), r, cs) == Restrict(r, done + cs)
    decreases |cs|
  {
    if cs == [] {
      assert done + cs == done;
    } else {
      ComponentStage(r, done, cs[0]);
      PutRecordsRestrict(r, done + [cs[0]], cs[1..]);
      assert done + [cs[0]] + cs[1..] == done + cs;
    }
  }

  /** Putting every listed record onto the bare handles rebuilds the
      registry as those component types record it. */
  lemma PutRecordsRebuild(r: Registry, cs: seq<Component>)
    requires WellFormed(r)
    ensures PutRecords(Restrict(r, []), r, cs) == Restrict(r, cs)
  {
    PutRecordsRestrict(r, [], cs);
    assert [] + cs == cs;
  }

  /** The storage `s` with `items` queued in front of what it holds. */
  function Queued(s: Storage, items: seq<Item>): (q: Storage)
    ensures q.Keys == s.Keys
  {
    map t | t in s :: Archive.Project(items, t) + s[t]
  }

  /** What a component record of `ps` followed by `more` puts in the queue of type `t`. */
  lemma ProjectComponentRecord(c: Component, ps: seq<(Entity, Value)>, more: seq<Item>, t: Tag)
    ensures Archive.Project([(EntityTag, CountDatum(|ps|))] + PairItems(c, ps) + more, t)
         == PairRecordDatums(c, ps, t) + Archive.Project(more, t)
  {
    var count := [(EntityTag, CountDatum(|ps|))];
    Archive.ProjectAppend(count + PairItems(c, ps), more, t);
    Archive.ProjectAppend(count, PairItems(c, ps), t);
    ProjectPairItems(c, ps, t);
  }

  /** The component records of `cs` queued in front of `target` are read
      back as exactly the instances recorded, and leave `target`. */
  lemma {:induction false} LoadComponentsFromQueues(r: Registry, base: Registry, cs: seq<Component>, target: Storage)
    requires Declares(target, cs)
    ensures LoadComponents(base, Queued(target, ComponentsRecord(r, cs)), cs) == Some((PutRecords(base, r, cs), target))
    decreases |cs|
  {
    if cs == [] {
      Archive.Extensionality(Queued(target, []), target);
    } else {
      var c := cs[0];
      var ps := Instances(r.slots, |r.slots|, c);
      var more := ComponentsRecord(r, cs[1..]);
      var s := Queued(target, ComponentsRecord(r, cs));
      var mid := Queued(target, more);
      assert ComponentsRecord(r, cs) == [(EntityTag, CountDatum(|ps|))] + PairItems(c, ps) + more;
      forall t | t in target ensures s[t] == PairRecordDatums(c, ps, t) + mid[t] {
        ProjectComponentRecord(c, ps, more, t);
      }
      assert ComponentTag(c) in target by { assert c == cs[0]; }
      LoadComponentRecordFromQueues(base, c, ps, s, mid);
      assert Declares(target, cs[1..]) by {
        forall i | 0 <= i < |cs| - 1 ensures ComponentTag(cs[1..][i]) in target { assert cs[1..][i] == cs[i + 1]; }
      }
      var base1 := PutAll(base, c, ps);
      LoadComponentsFromQueues(r, base1, cs[1..], target);
      LoadComponentsCons(base, s, cs, base1, mid, Some((PutRecords(base, r, cs), target)));
    }
  }

  /** Loading a list of component types is loading the first, then the rest. */
  lemma LoadComponentsCons(r: Registry, s: Storage, cs: seq<Component>,
                           r1: Registry, s1: Storage, result: Option<(Registry, Storage)>)
    requires cs != [] && Declares(s, cs) && Declares(s1, cs[1..])
    requires LoadComponentRecord(r, s, cs[0]) == Some((r1, s1))
    requires LoadComponents(r1, s1, cs[1..]) == result
    ensures LoadComponents(r, s, cs) == result
  {
  }

  /** An entities record of `es` queued in front of `more` is read back as
      exactly the handles recorded, and leaves `more` queued. */
  lemma LoadRecordQueued(base: Registry, es: seq<Entity>, more: seq<Item>, target: Storage, destroyed: bool)
    requires EntityTag in target
    ensures LoadRecord(base, Queued(target, EntitiesRecord(es) + more), destroyed)
         == Some((ForceAll(base, es, destroyed), Queued(target, more)))
  {
    var s, mid := Queued(target, EntitiesRecord(es) + more), Queued(target, more);
    ProjectEntitiesRecord(es);
    forall t | t in target ensures s[t] == RecordDatums(es, t) + mid[t] {
      Archive.ProjectAppend(EntitiesRecord(es), more, t);
    }
    LoadRecordFromQueues(base, es, s, mid, destroyed);
  }

  /** The storage `s` with `items` appended behind what it holds. */
  function Appended(s: Storage, items: seq<Item>): (q: Storage)
    ensures q.Keys == s.Keys
  {
    map t | t in s :: s[t] + Archive.Project(items, t)
  }

  lemma OutputAppended(s: Storage, items: seq<Item>)
    requires Archive.Admits(s, items)
    ensures Archive.Output(s, items) == Appended(s, items)
  {
    Archive.OutputQueues(s, items);
    Archive.Extensionality(Archive.Output(s, items), Appended(s, items));
  }

  /** Appending three packs to an empty storage queues their concatenation. */
  lemma AppendedThrice(s: Storage, a: seq<Item>, d: seq<Item>, c: seq<Item>)
    requires Archive.Drained(s)
    ensures Appended(Appended(Appended(s, a), d), c) == Queued(s, a + (d + c))
  {
    var got, want := Appended(Appended(Appended(s, a), d), c), Queued(s, a + (d + c));
    forall t | t in s ensures got[t] == want[t] {
      Archive.ProjectAppend(a, d + c, t);
      Archive.ProjectAppend(d, c, t);
      assert s[t] == [];
    }
    Archive.Extensionality(got, want);
  }

  /** The snapshot of the tests, taken into an empty archive, queues the
      live handles, the destroyed handles and the component records in turn. */
  lemma SnapshotQueued(r: Registry, cs: seq<Component>, s: Storage)
    requires Archive.Drained(s) && Declares(s, cs)
    ensures TakeSnapshot(r, cs, s)
         == Queued(s, EntitiesRecord(Handles(r.slots, |r.slots|, true))
                      + (EntitiesRecord(Handles(r.slots, |r.slots|, false)) + ComponentsRecord(r, cs)))
  {
    var n := |r.slots|;
    var A, D, C := EntitiesRecord(Handles(r.slots, n, true)), EntitiesRecord(Handles(r.slots, n, false)), ComponentsRecord(r, cs);
    ProjectEntitiesRecord(Handles(r.slots, n, true));
    ProjectEntitiesRecord(Handles(r.slots, n, false));
    var s1 := SnapshotEntities(r, s);
    var s2 := SnapshotDestroyed(r, s1);
    AdmitsComponentsRecord(r, cs, s2);
    assert s1 == Appended(s, A) by { OutputAppended(s, A); }
    assert s2 == Appended(s1, D) by { OutputAppended(s1, D); }
    assert SnapshotComponents(r, cs, s2) == Appended(s2, C) by { OutputAppended(s2, C); }
    AppendedThrice(s, A, D, C);
  }

  /** The loader of the tests runs its steps in turn. */
  lemma RestoreSteps(r: Registry, cs: seq<Component>, s: Storage, orphans: bool,
                     r1: Registry, s1: Storage, r2: Registry, s2: Storage, r3: Registry, s3: Storage)
    requires Declares(s, cs) && s1.Keys == s.Keys && s2.Keys == s.Keys
    requires LoadEntities(r, s) == Some((r1, s1))
    requires LoadDestroyed(r1, s1) == Some((r2, s2))
    requires LoadComponents(r2, s2, cs) == Some((r3, s3))
    ensures Restore(r, cs, s, orphans) == Some((if orphans then Orphans(r3) else r3, s3))
  {
  }

  /** The Dump and Partial round trip: a snapshot of entities, destroyed
      entities and the listed component types, taken into an empty archive
      and loaded back onto the reset registry, restores the registry as
      those component types record it (and without its orphans when
      `orphans()` is called), and leaves the archive empty again. */
  lemma RoundTrip(r: Registry, cs: seq<Component>, s: Storage, orphans: bool)
    requires WellFormed(r) && Archive.Drained(s) && Declares(s, cs)
    ensures Restore(Reset(r), cs, TakeSnapshot(r, cs, s), orphans)
         == Some((if orphans then Orphans(Restrict(r, cs)) else Restrict(r, cs), s))
  {
    var n := |r.slots|;
    var live, dead := Handles(r.slots, n, true), Handles(r.slots, n, false);
    var D, C := EntitiesRecord(dead), ComponentsRecord(r, cs);
    var r1 := ForceAll(Reset(r), live, false);
    var r2 := ForceAll(r1, dead, true);
    SnapshotQueued(r, cs, s);
    LoadRecordQueued(Reset(r), live, D + C, s, false);
    LoadRecordQueued(r1, dead, C, s, true);
    HandlesStage(r);
    LoadComponentsFromQueues(r, r2, cs, s);
    PutRecordsRebuild(r, cs);
    RestoreSteps(Reset(r), cs, TakeSnapshot(r, cs, s), orphans, r1, Queued(s, D + C), r2, Queued(s, C), Restrict(r, cs), s);
  }
}
