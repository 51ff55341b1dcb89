/** `entt::delegate<R(Args...)>`: a non-owning callable bound to at most one
    target, a free function or a member function on an instance.

    A delegate is a pair of an invoker and a context. The invoker is empty
    while the delegate is unbound, and is otherwise the stub generated for
    the bound function; the context is empty, or the address of the
    instance a member function is invoked on. The stubs and the erased
    pointers of the source are opaque values here: a stub is identified by
    the function it was generated for, an instance by its address. What the
    bound functions do is a parameter (`Behaviour`), and the instances they
    act on hold one integer of state each (`Heap`). */
module Delegate {

  // ---------------------------------------------------------------------------
  // Signatures and callables

  /** The value types of the signatures in the tests. */
  datatype Base = IntType | VoidType

  /** How a parameter is declared: by value (`int`) or by const reference (`const int &`). */
  datatype Passing = ByValue | ByConstRef

  datatype Param = Param(base: Base, passing: Passing)

  /** A call signature `R(Args...)`. */
  datatype Signature = Signature(result: Base, params: seq<Param>)

  /** The four qualifier combinations a member function may carry. */
  datatype Qualifier = Plain | NoExcept | Const | ConstNoExcept

  /** A free (or static) function with its declared signature. */
  datatype FreeFunction = FreeFunction(name: string, signature: Signature)

  /** A member function of type `owner`, with its declared signature and qualifiers. */
  datatype MemberFunction = MemberFunction(owner: string, name: string, signature: Signature, qualifier: Qualifier)

  /** A function declared as `declared` accepts the arguments of `sig` and
      returns its result: the arity and the argument types agree, whatever
      the declared passing, and so do the result types. */
  predicate Invocable(declared: Signature, sig: Signature) {
    && declared.result == sig.result
    && |declared.params| == |sig.params|
    && forall i :: 0 <= i < |sig.params| ==> declared.params[i].base == sig.params[i].base
  }

  // ---------------------------------------------------------------------------
  // The delegate

  /** The invoker: empty, or the stub generated for one bound function. */
  datatype Invoker = NoInvoker | FreeStub(target: FreeFunction) | MemberStub(member: MemberFunction)

  /** An instance address; 0 is the null pointer. */
  type Address = nat

  /** The erased context pointer. */
  datatype Context = NoContext | Instance(address: Address)

  datatype Delegate = Delegate(signature: Signature, invoker: Invoker, context: Context)

  /** What every reachable delegate satisfies: an unbound delegate and a
      free-function delegate carry no context, and a member-function
      delegate carries a non-null instance. */
  predicate Consistent(d: Delegate) {
    match d.invoker
    case NoInvoker => d.context == NoContext
    case FreeStub(_) => d.context == NoContext
    case MemberStub(_) => d.context.Instance? && d.context.address != 0
  }

  /** `explicit operator bool`: the delegate is bound. */
  predicate IsBound(d: Delegate) {
    !d.invoker.NoInvoker?
  }

  /** `operator==`: the invokers and the contexts are the same. Only delegates
      of the same signature are comparable. */
  predicate Equal(a: Delegate, b: Delegate)
    requires a.signature == b.signature
  {
    a.invoker == b.invoker && a.context == b.context
  }

  /** The default constructor: an unbound delegate of signature `sig`. */
  function Default(sig: Signature): (d: Delegate)
    ensures d.signature == sig
    ensures Consistent(d) && !IsBound(d)
    ensures forall e: Delegate :: e.signature == sig && Consistent(e) ==> (Equal(d, e) <==> !IsBound(e))
  {
    Delegate(sig, NoInvoker, NoContext)
  }

  /** `connect<&f>()`: binds free function `f`; any earlier binding is overwritten. */
  function ConnectFree(d: Delegate, f: FreeFunction): (d': Delegate)
    requires Invocable(f.signature, d.signature)
    ensures d'.signature == d.signature
    ensures Consistent(d') && IsBound(d')
    ensures forall e: Delegate :: e.signature == d.signature && Consistent(e) ==> (Equal(d', e) <==> e.invoker == FreeStub(f))
  {
    Delegate(d.signature, FreeStub(f), NoContext)
  }

  /** `connect<&T::m>(instance)`: binds member function `m` on the instance at
      the non-null address `a`; any earlier binding is overwritten. */
  function ConnectMember(d: Delegate, m: MemberFunction, a: Address): (d': Delegate)
    requires Invocable(m.signature, d.signature) && a != 0
    ensures d'.signature == d.signature
    ensures Consistent(d') && IsBound(d')
    ensures forall e: Delegate :: e.signature == d.signature ==>
      (Equal(d', e) <==> e.invoker == MemberStub(m) && e.context == Instance(a))
  {
    Delegate(d.signature, MemberStub(m), Instance(a))
  }

  /** `reset()`: back to the unbound state. */
  function Reset(d: Delegate): (d': Delegate)
    ensures d'.signature == d.signature
    ensures Consistent(d') && !IsBound(d')
    ensures Equal(d', Default(d.signature))
  {
    Delegate(d.signature, NoInvoker, NoContext)
  }

  // ---------------------------------------------------------------------------
  // Construction in one step and signature deduction

  /** `delegate<Sig>{connect_arg<&f>}`: the state `connect` would produce. */
  function FromFree(sig: Signature, f: FreeFunction): (d: Delegate)
    requires Invocable(f.signature, sig)
    ensures d == ConnectFree(Default(sig), f)
  {
    Delegate(sig, FreeStub(f), NoContext)
  }

  /** `delegate<Sig>{connect_arg<&T::m>, instance}`: the state `connect` would produce. */
  function FromMember(sig: Signature, m: MemberFunction, a: Address): (d: Delegate)
    requires Invocable(m.signature, sig) && a != 0
    ensures d == ConnectMember(Default(sig), m, a)
  {
    Delegate(sig, MemberStub(m), Instance(a))
  }

  /** The signature deduced from a free function: its declared one, verbatim. */
  function DeduceFree(f: FreeFunction): Signature {
    f.signature
  }

  /** The signature deduced from a member function: its declared result and
      parameters. A `Signature` has no room for `const` or `noexcept`, which
      are kept apart in `MemberFunction.qualifier`, so dropping them is built
      into the representation rather than computed here. */
  function DeduceMember(m: MemberFunction): Signature {
    m.signature
  }

  /** `delegate{connect_arg<&f>}` with the signature left to deduction. */
  function DeducedFromFree(f: FreeFunction): (d: Delegate)
    ensures Invocable(f.signature, DeduceFree(f))
    ensures d == FromFree(DeduceFree(f), f)
  {
    Delegate(DeduceFree(f), FreeStub(f), NoContext)
  }

  /** `delegate{connect_arg<&T::m>, instance}` with the signature left to deduction. */
  function DeducedFromMember(m: MemberFunction, a: Address): (d: Delegate)
    requires a != 0
    ensures Invocable(m.signature, DeduceMember(m))
    ensures d == FromMember(DeduceMember(m), m, a)
  {
    Delegate(DeduceMember(m), MemberStub(m), Instance(a))
  }

  /** The deduced signature of a member function does not depend on its
      qualifiers: all four combinations deduce the same signature. */
  lemma DeductionIgnoresQualifiers(m: MemberFunction, q: Qualifier)
    ensures DeduceMember(m.(qualifier := q)) == DeduceMember(m)
  {
  }

  // ---------------------------------------------------------------------------
  // Invocation

  /** The state of each live instance. */
  type Heap = map<Address, int>

  /** What the bound functions do: a free function maps its arguments to its
      result; a member function maps the state of its instance and its
      arguments to its result and the new state of its instance. */
  datatype Behaviour = Behaviour(
    free: (FreeFunction, seq<int>) -> int,
    member: (MemberFunction, int, seq<int>) -> (int, int))

  /** The result of a call (meaningless for `void`) and the heap after it. */
  datatype Outcome = Outcome(result: int, heap: Heap)

  /** Calling free function `f` directly. */
  function CallFree(f: FreeFunction, args: seq<int>, heap: Heap, b: Behaviour): Outcome {
    Outcome(b.free(f, args), heap)
  }

  /** Calling member function `m` directly on the instance at `a`. */
  function CallMember(m: MemberFunction, a: Address, args: seq<int>, heap: Heap, b: Behaviour): (o: Outcome)
    requires a in heap
    ensures o.heap.Keys == heap.Keys
    ensures forall x :: x in heap && x != a ==> o.heap[x] == heap[x]
  {
    var (result, state) := b.member(m, heap[a], args);
    Outcome(result, heap[a := state])
  }

  /** `operator()(args...)`: only a bound delegate may be called. The call
      goes through the invoker, with the context as the instance. */
  function Call(d: Delegate, args: seq<int>, heap: Heap, b: Behaviour): (o: Outcome)
    requires Consistent(d) && IsBound(d)
    requires |args| == |d.signature.params|
    requires d.context.Instance? ==> d.context.address in heap
    ensures o.heap.Keys == heap.Keys
    ensures forall x :: x in heap && d.context != Instance(x) ==> o.heap[x] == heap[x]
  {
    match d.invoker
    case FreeStub(f) => CallFree(f, args, heap, b)
    case MemberStub(m) => CallMember(m, d.context.address, args, heap, b)
  }

  /** A delegate bound to a free function calls it with the arguments given. */
  lemma CallFreeForwards(d: Delegate, f: FreeFunction, args: seq<int>, heap: Heap, b: Behaviour)
    requires Invocable(f.signature, d.signature) && |args| == |d.signature.params|
    ensures Call(ConnectFree(d, f), args, heap, b) == CallFree(f, args, heap, b)
    ensures Call(ConnectFree(d, f), args, heap, b).heap == heap
  {
  }

  /** A delegate bound to a member function calls it on the bound instance,
      whatever its qualifiers: the four variants dispatch alike. */
  lemma CallMemberForwards(d: Delegate, m: MemberFunction, a: Address, args: seq<int>, heap: Heap, b: Behaviour)
    requires Invocable(m.signature, d.signature) && a != 0 && a in heap && |args| == |d.signature.params|
    ensures Call(ConnectMember(d, m, a), args, heap, b) == CallMember(m, a, args, heap, b)
    ensures forall q ::
      Call(ConnectMember(d, m.(qualifier := q), a), args, heap, b)
        == CallMember(m.(qualifier := q), a, args, heap, b)
  {
  }

  // ---------------------------------------------------------------------------
  // Equality

  /** Equality of delegates is an equivalence. */
  lemma EqualIsEquivalence(a: Delegate, b: Delegate, c: Delegate)
    requires a.signature == b.signature == c.signature
    ensures Equal(a, a)
    ensures Equal(a, b) ==> Equal(b, a)
    ensures Equal(a, b) && Equal(b, c) ==> Equal(a, c)
  {
  }

  /** An unbound delegate equals exactly the unbound delegates; a bound one
      never equals an unbound one. */
  lemma UnboundEqualsOnlyUnbound(a: Delegate, b: Delegate)
    requires a.signature == b.signature && Consistent(a) && Consistent(b)
    ensures !IsBound(a) ==> (Equal(a, b) <==> !IsBound(b))
    ensures IsBound(a) && !IsBound(b) ==> !Equal(a, b)
  {
  }

  /** Two delegates bound to the same free function are equal; a free-function
      binding never equals a member-function binding; bindings of the same
      member function are equal exactly when they are on the same instance. */
  lemma EqualityOfBindings(d: Delegate, e: Delegate, f: FreeFunction, m: MemberFunction, a: Address, x: Address)
    requires d.signature == e.signature
    requires Invocable(f.signature, d.signature) && Invocable(m.signature, d.signature) && a != 0 && x != 0
    ensures Equal(ConnectFree(d, f), ConnectFree(e, f))
    ensures !Equal(ConnectFree(d, f), ConnectMember(e, m, a))
    ensures Equal(ConnectMember(d, m, a), ConnectMember(e, m, x)) <==> a == x
  {
  }

  /** Binding overwrites: the last `connect` alone decides the state, and
      `reset` forgets every earlier binding. */
  lemma RebindingOverwrites(d: Delegate, f: FreeFunction, m: MemberFunction, a: Address)
    requires Invocable(f.signature, d.signature) && Invocable(m.signature, d.signature) && a != 0
    ensures ConnectFree(ConnectMember(d, m, a), f) == ConnectFree(Default(d.signature), f)
    ensures ConnectMember(ConnectFree(d, f), m, a) == ConnectMember(Default(d.signature), m, a)
    ensures Reset(ConnectMember(d, m, a)) == Default(d.signature)
    ensures Reset(ConnectFree(d, f)) == Default(d.signature)
  {
  }

  // ---------------------------------------------------------------------------
  // Binding functions in turn on one delegate

  /** Member function `m`, called with no arguments, adds one to the state of its instance. */
  ghost predicate Increments(b: Behaviour, m: MemberFunction) {
    forall state: int :: b.member(m, state, []).1 == state + 1
  }

  /** Every function of `ms` can be bound to `d`. */
  predicate AllInvocable(ms: seq<MemberFunction>, sig: Signature) {
    forall i :: 0 <= i < |ms| ==> Invocable(ms[i].signature, sig)
  }

  /** Binds each member function of `ms` in turn to `d` on the instance at `a`
      and calls the delegate once after each binding. */
  function CallInTurn(d: Delegate, ms: seq<MemberFunction>, a: Address, heap: Heap, b: Behaviour): (result: (Delegate, Heap))
    requires d.signature.params == [] && a != 0 && a in heap && AllInvocable(ms, d.signature)
    ensures result.0.signature == d.signature && result.1.Keys == heap.Keys
    decreases |ms|
  {
    if ms == [] then (d, heap)
    else
      var d1 := ConnectMember(d, ms[0], a);
      var o := Call(d1, [], heap, b);
      assert AllInvocable(ms[1..], d1.signature) by {
        forall i | 0 <= i < |ms| - 1 ensures Invocable(ms[1..][i].signature, d1.signature) {
          assert ms[1..][i] == ms[i + 1];
        }
      }
      CallInTurn(d1, ms[1..], a, o.heap, b)
  }

  /** When every function of `ms` adds one to its instance, binding and
      calling them in turn adds `|ms|` to the instance and nothing to any
      other; the delegate ends bound to the last of them. */
  lemma {:induction false} CallInTurnCounts(d: Delegate, ms: seq<MemberFunction>, a: Address, heap: Heap, b: Behaviour)
    requires d.signature.params == [] && a != 0 && a in heap && AllInvocable(ms, d.signature)
    requires forall i :: 0 <= i < |ms| ==> Increments(b, ms[i])
    ensures CallInTurn(d, ms, a, heap, b).1[a] == heap[a] + |ms|
    ensures forall x :: x in heap && x != a ==> CallInTurn(d, ms, a, heap, b).1[x] == heap[x]
    ensures ms != [] ==> CallInTurn(d, ms, a, heap, b).0 == ConnectMember(d, ms[|ms| - 1], a)
    decreases |ms|
  {
    if ms != [] {
      var d1 := ConnectMember(d, ms[0], a);
      var o := Call(d1, [], heap, b);
      assert o.heap[a] == heap[a] + 1 by {
        assert Increments(b, ms[0]);
        assert b.member(ms[0], heap[a], []).1 == heap[a] + 1;
      }
      assert AllInvocable(ms[1..], d1.signature) by {
        forall i | 0 <= i < |ms| - 1 ensures Invocable(ms[1..][i].signature, d1.signature) {
          assert ms[1..][i] == ms[i + 1];
        }
      }
      assert forall i :: 0 <= i < |ms| - 1 ==> Increments(b, ms[1..][i]) by {
        forall i | 0 <= i < |ms| - 1 ensures Increments(b, ms[1..][i]) {
          assert ms[1..][i] == ms[i + 1];
        }
      }
      CallInTurnCounts(d1, ms[1..], a, o.heap, b);
      if |ms| > 1 {
        assert ms[1..][|ms[1..]| - 1] == ms[|ms| - 1];
      }
    }
  }

  /** The same, one binding and one call per loop iteration, on a delegate
      that is rebound in place. */
  method BindAndCallEach(d: Delegate, ms: seq<MemberFunction>, a: Address, heap: Heap, b: Behaviour)
    returns (d': Delegate, heap': Heap)
    requires d.signature.params == [] && a != 0 && a in heap && AllInvocable(ms, d.signature)
    ensures (d', heap') == CallInTurn(d, ms, a, heap, b)
  {
    d', heap' := d, heap;
    var i := 0;
    while i < |ms|
      invariant 0 <= i <= |ms|
      invariant d'.signature == d.signature && a in heap'
      invariant AllInvocable(ms[i..], d'.signature)
      invariant CallInTurn(d', ms[i..], a, heap', b) == CallInTurn(d, ms, a, heap, b)
      decreases |ms| - i
    {
      assert ms[i..][0] == ms[i] && ms[i..][1..] == ms[i + 1..];
      d' := ConnectMember(d', ms[i], a);
      var o := Call(d', [], heap', b);
      heap' := o.heap;
      i := i + 1;
    }
    assert ms[i..] == [];
  }
}
