# EnTT delegate and snapshot archives, modelled in Dafny

This project models two behaviours of EnTT. Both are taken from its test
suite, since the library headers are not part of this model.

**`entt::delegate`** (`delegate.dfy`, `delegate_tests.dfy`)

- A delegate of signature `R(Args...)` is a pair of an invoker and a context.
- It is unbound (no invoker, no context) or bound to one target:
  - a free function, with no context;
  - a member function, with the address of the instance as context.
- `connect` binds and overwrites any earlier binding. `reset` unbinds.
- `operator bool` tells whether the delegate is bound. `operator==` compares invoker and context.
- `operator()` may only be used on a bound delegate. It forwards to the target, and a member function sees the state of its instance.
- The `connect_arg` constructors build the state that `connect` would build.
- Deduction guides take the signature from the function. A free function keeps `const int &`. A member function loses its `const`/`noexcept` qualifiers.
- What targets compute is a parameter (`Behaviour`). Instances hold one integer of state each (`Heap`).

**Snapshot archives and the dump / reset / load round trip** (`archive.dfy`, `registry.dfy`, `snapshot.dfy`, `roundtrip.dfy`, `scenarios.dfy`)

- The archive storage of the tests is a tuple of FIFO queues, one per value type. Here it is a map from a type tag to a sequence.
  - `output_archive` appends each value to the queue of its type.
  - `input_archive` pops each value from the front of the queue of its type.
- The registry is abstract. Each identifier has a slot holding:
  - the version the identifier is at;
  - whether the entity is alive;
  - its components.
- `snapshot()` writes a count and then the items of each part asked for:
  - the live handles;
  - the destroyed handles;
  - for each listed component type, the pairs of owner handle and component.
- `loader()` reads the same parts back onto a reset registry:
  - it imposes each handle at its recorded version;
  - it sets each component on its owner;
  - `orphans()` destroys the live entities left without components.
- The central theorem is `Snapshot.RoundTrip`. Dumping a registry into empty storage, resetting it and loading it back gives the registry as the listed component types record it. With `orphans()`, the orphans are also gone. The storage ends empty again.
- `RoundTrips` and `SnapshotTests` derive from it what the Dump and Partial tests assert.

Shared: `options.dfy` (an `Option` type usable with `:-`).

## Model

| member | source | states |
|---|---|---|
| Archive.Declare | test/entt/entity/snapshot.cpp:74-82 | a storage declared for a set of types has exactly one queue per type, and every queue is empty |
| Archive.Write | test/entt/entity/snapshot.cpp:15 | one push appends the value to the back of its type's queue, keeps the key set, and leaves every other queue unchanged |
| Archive.Output | test/entt/entity/snapshot.cpp:13-16 | output_archive::operator() keeps the storage's set of queues; what it appends to each queue is stated by Archive.OutputQueues |
| Archive.OutputQueues | test/entt/entity/snapshot.cpp:13-16 | after writing a parameter pack of values, each queue is the old queue followed by exactly the pack's values of that type, in argument order |
| Archive.OutputAppend | test/entt/entity/snapshot.cpp:13-16 | writing one pack and then another leaves the same storage as writing their concatenation at once |
| Archive.OutputOtherTypes | test/entt/entity/snapshot.cpp:15 | types do not interfere: writing only values of other types leaves the queue of type t as it was |
| Archive.Read | test/entt/entity/snapshot.cpp:30-34 | one pop returns the front of the queue, removes exactly that one element (length drops by one), and leaves the other queues unchanged |
| Archive.InputSucceeds | test/entt/entity/snapshot.cpp:28-37 | reading a parameter pack of types succeeds if and only if every queue holds at least as many values as the pack asks of its type |
| Archive.InputRemainder | test/entt/entity/snapshot.cpp:28-37 | a successful read leaves each queue without exactly its first Count(ts, t) values |
| Archive.Input | test/entt/entity/snapshot.cpp:28-37 | input_archive::operator() on success returns one value per type asked for and keeps the storage's set of queues; when it succeeds and what it consumes is stated by Archive.InputConsumes |
| Archive.InputConsumes | test/entt/entity/snapshot.cpp:28-37 | reading succeeds exactly when the queues hold enough, and it then consumes exactly as many values of each type as were asked for |
| Archive.ReadFirst | test/entt/entity/snapshot.cpp:13-16 | from storage that started empty, the first read of the first written type returns the first written value, and what remains is as if only the rest had been written |
| Archive.InputAfterOutput | test/entt/entity/snapshot.cpp:7-41 | FIFO round trip: after writing xs then ys into empty storage, reading the types of xs returns exactly the values of xs in order and leaves the storage holding only ys |
| Archive.RoundTrip | test/entt/entity/snapshot.cpp:7-41 | whatever is written into empty storage is read back in order, and the storage is empty again |
| Registry.Empty | test/entt/entity/snapshot.cpp:56 | a new registry is well formed (dead slots empty, every value of its component's type) and no handle is valid in it |
| Registry.Create | test/entt/entity/snapshot.cpp:58-68 | create returns a handle that was not valid and now is, owning nothing; the valid handles are exactly the old ones plus the new one; the registry gains one slot and every existing slot is unchanged |
| Registry.Assign | test/entt/entity/snapshot.cpp:59-69 | assign of a value of the component's own type gives the entity that component with that value; its other components, every other slot and all validity are unchanged, and well-formedness is kept |
| Registry.Destroy | test/entt/entity/snapshot.cpp:71-72 | destroy leaves the identifier's slot dead and empty at the next version, so no handle of that identifier is valid; every other slot and every other handle's validity are unchanged |
| Registry.Reset | test/entt/entity/snapshot.cpp:91-96 | after reset no handle is valid, every pool is empty, and a destroyed identifier keeps its version |
| Snapshot.HandlesExactly | test/entt/entity/snapshot.cpp:86-88 | the entities and destroyed records hold exactly the handles of the live (resp. destroyed) slots, each at its identifier's current version |
| Snapshot.InstancesExactly | test/entt/entity/snapshot.cpp:89 | the record of a component type holds exactly its instances, each paired with its owner's current handle and its value |
| Snapshot.SnapshotEntities | test/entt/entity/snapshot.cpp:86-87 | taking the entities record leaves every component queue unchanged |
| Snapshot.SnapshotComponents | test/entt/entity/snapshot.cpp:89 | taking the component records leaves the queue of every unlisted component type unchanged |
| Snapshot.SnapshotDestroyed | test/entt/entity/snapshot.cpp:88 | taking the destroyed record keeps the set of queues and leaves every component queue unchanged; what it writes is stated by Snapshot.SnapshotQueued |
| Snapshot.TakeSnapshot | test/entt/entity/snapshot.cpp:86-89 | the whole snapshot keeps the storage's set of queues; what it queues is stated by Snapshot.SnapshotQueued |
| Snapshot.SnapshotQueued | test/entt/entity/snapshot.cpp:86-89 | the snapshot, taken into empty storage, queues the live handles, the destroyed handles and the component records, in that order |
| Snapshot.ForceEffect | test/entt/entity/snapshot.cpp:98-100 | loading a handle puts its identifier at the recorded version; the handle is valid if and only if it was loaded as alive; the registry grows with dead slots when needed; every other slot is unchanged |
| Snapshot.PutEffect | test/entt/entity/snapshot.cpp:101 | loading a component makes its owner valid and holding that value, and changes no other slot |
| Snapshot.Orphans | test/entt/entity/snapshot.cpp:102 | after orphans() a handle is valid if and only if it was valid and owned a component; components and destroyed slots are unchanged |
| Snapshot.ReadCount | test/entt/entity/snapshot.cpp:98-101 | a record's count is read if and only if the entity queue opens with one; it then returns that count and pops exactly that value |
| Snapshot.LoadEntities | test/entt/entity/snapshot.cpp:99 | loader().entities(archive) keeps the storage's set of queues when it succeeds; what it reads and imposes is stated by Snapshot.LoadHandlesReads and Snapshot.LoadHandlesFails |
| Snapshot.LoadDestroyed | test/entt/entity/snapshot.cpp:100 | loader().destroyed(archive) keeps the storage's set of queues when it succeeds; what it reads and imposes is stated by Snapshot.LoadHandlesReads and Snapshot.LoadHandlesFails |
| Snapshot.LoadHandlesReads | test/entt/entity/snapshot.cpp:99-100 | when the entity queue opens with n handles, loading n handles consumes exactly those and imposes them in order |
| Snapshot.LoadHandlesFails | test/entt/entity/snapshot.cpp:99-100 | when the entity queue does not open with n handles, loading n handles fails |
| Snapshot.LoadPairsReads | test/entt/entity/snapshot.cpp:101 | when the queues open with n handle/component pairs, loading them consumes exactly those, sets the instances in order and leaves every other queue unchanged |
| Snapshot.LoadPairsFails | test/entt/entity/snapshot.cpp:101 | when the queues do not open with n pairs, loading n instances fails |
| Snapshot.LoadComponents | test/entt/entity/snapshot.cpp:101 | loader().component<cs...>(archive) keeps the storage's set of queues when it succeeds; what it reads and sets is stated by Snapshot.LoadComponentsFromQueues and Snapshot.RoundTrip |
| Snapshot.LoadComponentsFromQueues | test/entt/entity/snapshot.cpp:89-101 | the component records of the listed types, queued ahead of other content, are read back as exactly the recorded instances, and that other content is left in place |
| Snapshot.RestrictView | test/entt/entity/snapshot.cpp:170-180 | the registry as a partial snapshot records it: same valid handles and versions, a component is present if and only if its type is listed and it was present, values are unchanged, and a pool is empty if and only if its type is unlisted or it was empty |
| Snapshot.Restore | test/entt/entity/snapshot.cpp:98-102 | the loader, when it succeeds, keeps the storage's set of queues; what it rebuilds from a snapshot is stated by Snapshot.RoundTrip |
| Snapshot.RoundTrip | test/entt/entity/snapshot.cpp:86-102 | snapshot into empty storage, reset, then load gives the registry restricted to the listed types (without orphans when orphans() is called), and the storage is empty again |
| RoundTrips.RestrictEverything | test/entt/entity/snapshot.cpp:89 | when every component type is listed, the snapshot records the registry unchanged |
| RoundTrips.Dump | test/entt/entity/snapshot.cpp:86-102 | a full dump loaded with orphans() gives back the registry without its orphans |
| RoundTrips.DumpObserved | test/entt/entity/snapshot.cpp:104-120 | after a full dump and load: exactly the valid non-orphans are valid, each keeps its components and values, destroyed identifiers keep their versions, and empty pools stay empty |
| RoundTrips.OrphansKeepPools | test/entt/entity/snapshot.cpp:102-120 | orphans() leaves every pool empty exactly when it was empty before |
| RoundTrips.PartialObserved | test/entt/entity/snapshot.cpp:153-180 | after a partial snapshot and load without orphans(): the same handles are valid, every identifier keeps its version, an entity has a component if and only if its type was listed and it had it, values are preserved, and the storage is returned empty |
| RoundTrips.EntitiesOnlyOrphans | test/entt/entity/snapshot.cpp:182-201 | a snapshot of entities alone, loaded with orphans(), leaves no valid handle |
| SnapshotTests.TestRegistry | test/entt/entity/snapshot.cpp:56-72 | in the tests' registry e0, e2 and e3 are valid, e1 is not, and e1's identifier is at version 1 |
| SnapshotTests.TestRegistrySlots | test/entt/entity/snapshot.cpp:56-71 | the creates, assigns and destroy of the tests build exactly four slots: 42 and 'c' on e0, e1 destroyed at version 1, 3 on e2, '0' on e3 |
| SnapshotTests.TestRegistryWellFormed | test/entt/entity/snapshot.cpp:56-71 | the tests' registry is well formed: the destroyed e1 owns nothing and every value is of its component's type |
| SnapshotTests.TestRegistryHasNoOrphans | test/entt/entity/snapshot.cpp:109-111 | orphans() changes nothing in the tests' registry |
| SnapshotTests.DumpTest | test/entt/entity/snapshot.cpp:55-102 | in the Dump test every handle is invalid after reset, and loading with orphans() gives back exactly the dumped registry |
| SnapshotTests.DumpTestObserved | test/entt/entity/snapshot.cpp:104-120 | the registry loaded back in the Dump test answers each of its assertions except the double component: e0, e2, e3 valid and not orphans, e1 invalid at its old version, the int and char values, and no another_component |
| SnapshotTests.DumpOfNoOrphans | test/entt/entity/snapshot.cpp:86-102 | a full dump of any well-formed registry without orphans, loaded with orphans(), gives back that very registry and drained storage |
| SnapshotTests.PartialTest | test/entt/entity/snapshot.cpp:123-201 | the Partial test's assertions: char and int come back with their values, e1 keeps its version, and the entities-only round trip with orphans() leaves all four handles invalid |
| Delegate.Default | test/entt/signal/delegate.cpp:23-29 | a default delegate is unbound, and it equals exactly the unbound delegates of its signature |
| Delegate.ConnectFree | test/entt/signal/delegate.cpp:31-34 | after connect of a free function the delegate is bound, and it equals exactly the delegates bound to that function |
| Delegate.ConnectMember | test/entt/signal/delegate.cpp:32-35 | after connect of a member function on an instance the delegate is bound, and it equals exactly the delegates bound to that member on that instance |
| Delegate.Reset | test/entt/signal/delegate.cpp:40-45 | reset makes the delegate unbound and equal to a default delegate of its signature |
| Delegate.FromFree | test/entt/signal/delegate.cpp:83 | constructing with connect_arg of a free function gives the same state as default construction followed by connect |
| Delegate.FromMember | test/entt/signal/delegate.cpp:84 | constructing with connect_arg of a member function and an instance gives the same state as default construction followed by connect |
| Delegate.DeducedFromFree | test/entt/signal/delegate.cpp:94-100 | the deduced delegate is invocable, and it is the connect_arg construction at the deduced signature |
| Delegate.DeducedFromMember | test/entt/signal/delegate.cpp:95-104 | the deduced member delegate is invocable, and it is the connect_arg construction at the deduced signature |
| Delegate.DeductionIgnoresQualifiers | test/entt/signal/delegate.cpp:101-104 | the four qualifier variants of a member function deduce the same signature |
| Delegate.CallMember | test/entt/signal/delegate.cpp:14-19 | a member call changes only the state of its own instance |
| Delegate.Call | test/entt/signal/delegate.cpp:37-38 | invoking a bound delegate changes no instance but the bound one |
| Delegate.CallFreeForwards | test/entt/signal/delegate.cpp:4-6 | a delegate bound to a free function returns what a direct call returns, and touches no instance |
| Delegate.CallMemberForwards | test/entt/signal/delegate.cpp:65-75 | a delegate bound to a member function behaves like a direct call on the bound instance, for all four qualifier variants alike |
| Delegate.EqualIsEquivalence | test/entt/signal/delegate.cpp:49-58 | delegate equality is reflexive, symmetric and transitive |
| Delegate.UnboundEqualsOnlyUnbound | test/entt/signal/delegate.cpp:42-46 | an unbound delegate equals a delegate if and only if that one is unbound; a bound delegate never equals an unbound one |
| Delegate.EqualityOfBindings | test/entt/signal/delegate.cpp:46 | bindings of the same free function are equal; a free binding never equals a member binding; two bindings of one member are equal if and only if they are on the same instance |
| Delegate.RebindingOverwrites | test/entt/signal/delegate.cpp:65-74 | the last connect alone decides the state, and reset forgets every earlier binding |
| Delegate.CallInTurnCounts | test/entt/signal/delegate.cpp:61-77 | binding and calling incrementing members in turn adds their number to the instance, leaves every other instance alone, and ends bound to the last member |
| Delegate.BindAndCallEach | test/entt/signal/delegate.cpp:61-77 | the loop that rebinds the delegate in place and calls it after each binding ends in the same state and heap as binding and calling in turn |
| DelegateTests.Functionalities | test/entt/signal/delegate.cpp:22-47 | the Functionalities assertions: defaults unbound and equal; bound delegates called with 3 give 9 and 6; after reset only the free one is unbound, and it equals a default delegate and differs from the member one |
| DelegateTests.Comparison | test/entt/signal/delegate.cpp:49-59 | a default delegate equals another default one and differs from one bound to delegate_function |
| DelegateTests.ConstNonConstNoExcept | test/entt/signal/delegate.cpp:61-78 | binding f, g, h and i in turn and calling after each leaves the counter at 4 |
| DelegateTests.Constructors | test/entt/signal/delegate.cpp:80-89 | the empty delegate is unbound and both connect_arg constructions are bound |
| DelegateTests.DeducedGuidelines | test/entt/signal/delegate.cpp:91-111 | delegate_function deduces int(const int &), not int(int); all four qualifier variants deduce void(); all five delegates are bound |

## Left out

- The registry implementation is not part of this model: sparse sets, pools, views, the entity/version bit packing and identifier recycling. The registry is abstract, one slot per identifier, and versions are unbounded naturals without wrap-around.
- Registry.Create: always takes the next unused identifier and does not recycle destroyed ones. The Dump and Partial tests (test/entt/entity/snapshot.cpp:55-202) never create after a destroy; the later tests do, and they are left out below.
- `double` components are left out, and so is the `has<double>` / `get<double>` part of the assertions, because the model has no floating point. `RoundTrips.PartialObserved` states the general fact behind `has<double>(e0)` being false: an unlisted type is absent after loading.
- `a_component` and `what_a_component` are only used by the later tests. `another_component` is modelled as a pair of integers.
- The `Iterator`, `Continuous`, `ContinuousMoreOnShrink` and `SyncDataMembers` tests (`continuous_loader`, `shrink`, data-member remapping), test/entt/entity/snapshot.cpp:204-496, are left out. They depend on identifier recycling and view order, which the registry model does not fix.
- How the real snapshot lays out its data is not visible. Here each part is a count followed by its items, and the count travels in the entity queue as an entity-typed value.
- The loader grows the registry for identifiers beyond its end and fills any gap with dead slots at version 0. The snapshot of a reset registry never needs such a gap.
- Reading from an empty queue is undefined behaviour in the source. `Archive.Read` requires a non-empty queue, and the loader returns `None` on a missing or mistyped value.
- Storage types are fixed by the tuple's type, so a missing queue does not compile in the source. Here it is a precondition (`Declares`, `Admits`).
- Delegate type erasure is not modelled: function-pointer stubs, `void *` contexts, template deduction. A stub is identified by its function and a context by an address. Signature deduction is a function on signature descriptors.
- Calling an unbound delegate is a precondition of `Delegate.Call`; the tests never do it. What targets compute is the `Behaviour` parameter, not the C++ bodies. `DelegateTests` instantiates it with `i*i`, `i+i` and the counter increment.
- The gtest harness and `static_assert` plumbing are not modelled. The static checks are stated as lemmas about the deduced signature.
- Concurrency: none in the source.
