/** The delegate tests, on the functions they bind: `delegate_function`
    (`i*i`, taking `const int &`), `delegate_functor::operator()` (`i+i`),
    and the four members of `const_nonconst_noexcept`, which differ only in
    their qualifiers and each add one to the instance's counter. */
module DelegateTests {
  import opened Delegate

  /** `int(int)` */
  const IntToInt := Signature(IntType, [Param(IntType, ByValue)])
  /** `void()` */
  const Nullary := Signature(VoidType, [])

  const DelegateFunction := FreeFunction("delegate_function", Signature(IntType, [Param(IntType, ByConstRef)]))
  const FunctorCall := MemberFunction("delegate_functor", "operator()", IntToInt, Plain)
  const F := MemberFunction("const_nonconst_noexcept", "f", Nullary, Plain)
  const G := MemberFunction("const_nonconst_noexcept", "g", Nullary, NoExcept)
  const H := MemberFunction("const_nonconst_noexcept", "h", Nullary, Const)
  const I := MemberFunction("const_nonconst_noexcept", "i", Nullary, ConstNoExcept)

  /** The instance every test binds to, and its state before the test. */
  const Functor: Address := 1
  const Fresh: Heap := map[Functor := 0]

  function SquareOrZero(f: FreeFunction, args: seq<int>): int {
    if f == DelegateFunction && |args| == 1 then args[0] * args[0] else 0
  }

  function TwiceOrCount(m: MemberFunction, state: int, args: seq<int>): (int, int) {
    if m == FunctorCall && |args| == 1 then (args[0] + args[0], state)
    else if m.owner == "const_nonconst_noexcept" then (0, state + 1)
    else (0, state)
  }

  /** What the functions of the tests do. */
  const Tests := Behaviour(SquareOrZero, TwiceOrCount)

  /** The Functionalities test: two default delegates are unbound and equal;
      bound to `delegate_function` and to the functor, both are bound and
      called with 3 give 9 and 6; the first, reset, is unbound and equal to a
      default delegate, while the second stays bound and differs from it. */
  lemma Functionalities()
    ensures var ff, mf := Default(IntToInt), Default(IntToInt);
      && !IsBound(ff) && !IsBound(mf) && Equal(ff, mf)
      && var ff1, mf1 := ConnectFree(ff, DelegateFunction), ConnectMember(mf, FunctorCall, Functor);
      && IsBound(ff1) && IsBound(mf1)
      && Call(ff1, [3], Fresh, Tests).result == 9
      && Call(mf1, [3], Fresh, Tests).result == 6
      && var ff2 := Reset(ff1);
      && !IsBound(ff2) && IsBound(mf1)
      && Equal(ff2, Default(IntToInt)) && !Equal(ff2, mf1)
  {
    var ff1, mf1 := ConnectFree(Default(IntToInt), DelegateFunction), ConnectMember(Default(IntToInt), FunctorCall, Functor);
    CallFreeForwards(Default(IntToInt), DelegateFunction, [3], Fresh, Tests);
    CallMemberForwards(Default(IntToInt), FunctorCall, Functor, [3], Fresh, Tests);
  }

  /** The Comparison test: a default delegate equals another default one and
      differs from one bound to `delegate_function`. */
  lemma Comparison()
    ensures var bound, def := ConnectFree(Default(IntToInt), DelegateFunction), Default(IntToInt);
      Equal(def, Default(IntToInt)) && !Equal(def, bound)
  {
  }

  /** The ConstNonConstNoExcept test: binding `f`, `g`, `h` and `i` in turn to
      one `void()` delegate and calling it after each leaves the counter at 4,
      with the delegate bound to `i`. */
  lemma ConstNonConstNoExcept()
    ensures CallInTurn(Default(Nullary), [F, G, H, I], Functor, Fresh, Tests).1[Functor] == 4
    ensures CallInTurn(Default(Nullary), [F, G, H, I], Functor, Fresh, Tests).0 == ConnectMember(Default(Nullary), I, Functor)
  {
    var ms := [F, G, H, I];
    forall k | 0 <= k < |ms| ensures Increments(Tests, ms[k]) {
      forall state: int ensures Tests.member(ms[k], state, []).1 == state + 1 {
        assert ms[k].owner == "const_nonconst_noexcept" && ms[k] != FunctorCall;
      }
    }
    CallInTurnCounts(Default(Nullary), ms, Functor, Fresh, Tests);
  }

  /** The Constructors test: the empty delegate is unbound and the two built
      with `connect_arg` are bound. */
  lemma Constructors()
    ensures !IsBound(Default(IntToInt))
    ensures IsBound(FromFree(IntToInt, DelegateFunction))
    ensures IsBound(FromMember(IntToInt, FunctorCall, Functor))
  {
  }

  /** The DeducedGuidelines test: the signature deduced from
      `delegate_function` is `int(const int &)`, not `int(int)`; the four
      qualifier variants all deduce `void()`; all five delegates are bound. */
  lemma DeducedGuidelines()
    ensures DeducedFromFree(DelegateFunction).signature == Signature(IntType, [Param(IntType, ByConstRef)])
    ensures DeducedFromFree(DelegateFunction).signature != IntToInt
    ensures DeducedFromMember(F, Functor).signature == Nullary
    ensures DeducedFromMember(G, Functor).signature == Nullary
    ensures DeducedFromMember(H, Functor).signature == Nullary
    ensures DeducedFromMember(I, Functor).signature == Nullary
    ensures IsBound(DeducedFromFree(DelegateFunction))
    ensures IsBound(DeducedFromMember(F, Functor)) && IsBound(DeducedFromMember(G, Functor))
    ensures IsBound(DeducedFromMember(H, Functor)) && IsBound(DeducedFromMember(I, Functor))
  {
    assert Signature(IntType, [Param(IntType, ByConstRef)]).params[0] != IntToInt.params[0];
  }
}
