/** The archive adapters of the snapshot tests. The storage they share is a
    tuple of FIFO queues, one per value type; `output_archive` pushes every
    value it is given onto the queue of that value's type, and
    `input_archive` pops the front of the queue of each value it fills.

    Here the storage is a map from a type tag to that type's queue. Its key
    set is fixed when the storage is declared: naming a type the tuple does
    not hold does not compile in the source, so it is a precondition here.
    The static type of a value is passed as an explicit tag. */
module Archive {
  import opened Options

  type Storage<T, V> = map<T, seq<V>>

  /** A storage holding one empty queue per declared type. */
  function Declare<T(==), V>(types: set<T>): (s: Storage<T, V>)
    ensures s.Keys == types
    ensures Drained(s)
  {
    map t | t in types :: []
  }

  /** Every queue of the storage is empty. */
  predicate Drained<T(==), V>(s: Storage<T, V>) {
    forall t :: t in s ==> s[t] == []
  }

  /** Every value to be written has a queue in the storage. */
  predicate Admits<T(==), V>(s: Storage<T, V>, items: seq<(T, V)>) {
    forall i :: 0 <= i < |items| ==> items[i].0 in s
  }

  /** The values of type `t` among `items`, in their order. */
  function Project<T(==), V>(items: seq<(T, V)>, t: T): (vs: seq<V>)
    ensures |vs| <= |items|
  {
    if items == [] then []
    else (if items[0].0 == t then [items[0].1] else []) + Project(items[1..], t)
  }

  function Tags<T(==), V>(items: seq<(T, V)>): (ts: seq<T>)
    ensures |ts| == |items|
    ensures forall i :: 0 <= i < |items| ==> ts[i] == items[i].0
  {
    seq(|items|, i requires 0 <= i < |items| => items[i].0)
  }

  function Values<T(==), V>(items: seq<(T, V)>): (vs: seq<V>)
    ensures |vs| == |items|
    ensures forall i :: 0 <= i < |items| ==> vs[i] == items[i].1
  {
    seq(|items|, i requires 0 <= i < |items| => items[i].1)
  }

  /** How many times `t` occurs in `ts`. */
  function Count<T(==)>(ts: seq<T>, t: T): nat {
    multiset(ts)[t]
  }

  lemma CountCons<T>(ts: seq<T>, t: T)
    requires ts != []
    ensures Count(ts, t) == Count(ts[1..], t) + (if ts[0] == t then 1 else 0)
  {
    assert ts == [ts[0]] + ts[1..];
  }

  /** One push onto the queue of type `t`. */
  function Write<T(==), V>(s: Storage<T, V>, t: T, v: V): (s': Storage<T, V>)
    requires t in s
    ensures s'.Keys == s.Keys
    ensures s'[t] == s[t] + [v]
    ensures forall u :: u in s && u != t ==> s'[u] == s[u]
  {
    s[t := s[t] + [v]]
  }

  /** `output_archive::operator()`: the values of the pack are pushed in
      argument order, each on the queue of its own type. */
  function Output<T(==), V>(s: Storage<T, V>, items: seq<(T, V)>): (s': Storage<T, V>)
    requires Admits(s, items)
    ensures s'.Keys == s.Keys
    decreases |items|
  {
    if items == [] then s
    else Output(Write(s, items[0].0, items[0].1), items[1..])
  }

  /** Writing appends to each queue exactly the values of its type, in order. */
  lemma {:induction false} OutputQueues<T, V>(s: Storage<T, V>, items: seq<(T, V)>)
    requires Admits(s, items)
    ensures forall t :: t in s ==> Output(s, items)[t] == s[t] + Project(items, t)
    decreases |items|
  {
    if items != [] {
      var s1 := Write(s, items[0].0, items[0].1);
      assert Admits(s1, items[1..]) by {
        forall i | 0 <= i < |items| - 1 ensures items[1..][i].0 in s1 { assert items[1..][i] == items[i + 1]; }
      }
      OutputQueues(s1, items[1..]);
      var written := Output(s1, items[1..]);
      assert Output(s, items) == written;
      forall t | t in s ensures written[t] == s[t] + Project(items, t) {
        var head := if items[0].0 == t then [items[0].1] else [];
        assert Project(items, t) == head + Project(items[1..], t);
        assert s1[t] == s[t] + head;
        assert written[t] == s1[t] + Project(items[1..], t);
      }
    }
  }

  /** One pop from the front of the queue of type `t`. Reading an empty queue
      is undefined in the source, so it is a precondition. */
  function Read<T(==), V>(s: Storage<T, V>, t: T): (result: (V, Storage<T, V>))
    requires t in s && s[t] != []
    ensures result.1.Keys == s.Keys
    ensures [result.0] + result.1[t] == s[t]
    ensures |result.1[t]| == |s[t]| - 1
    ensures forall u :: u in s && u != t ==> result.1[u] == s[u]
  {
    (s[t][0], s[t := s[t][1..]])
  }

  /** `input_archive::operator()`: the values of the pack are filled in
      argument order, each from the front of the queue of its type. `None`
      stands for a read from an empty queue, which the source leaves
      undefined. */
  function Input<T(==), V>(s: Storage<T, V>, ts: seq<T>): (result: Option<(seq<V>, Storage<T, V>)>)
    requires forall i :: 0 <= i < |ts| ==> ts[i] in s
    ensures result.Some? ==> |result.value.0| == |ts| && result.value.1.Keys == s.Keys
    decreases |ts|
  {
    if ts == [] then Some(([], s))
    else if s[ts[0]] == [] then None
    else
      var (v, s1) := Read(s, ts[0]);
      match Input(s1, ts[1..])
      case None => None
      case Some((vs, s2)) => Some(([v] + vs, s2))
  }

  /** Reading types `ts` in turn succeeds exactly when every queue holds at
      least as many values as `ts` asks of it. */
  lemma {:induction false} InputSucceeds<T, V>(s: Storage<T, V>, ts: seq<T>)
    requires forall i :: 0 <= i < |ts| ==> ts[i] in s
    ensures Input(s, ts).Some? <==> forall t :: t in s ==> Count(ts, t) <= |s[t]|
    decreases |ts|
  {
    if ts != [] {
      var t0 := ts[0];
      CountCons(ts, t0);
      if s[t0] != [] {
        var (v, s1) := Read(s, t0);
        InputSucceeds(s1, ts[1..]);
        if Input(s1, ts[1..]).None? {
          var t :| t in s1 && Count(ts[1..], t) > |s1[t]|;
          CountCons(ts, t);
        } else {
          forall t | t in s ensures Count(ts, t) <= |s[t]| {
            CountCons(ts, t);
          }
        }
      }
    }
  }

  /** A successful read of types `ts` leaves each queue without its first
      `Count(ts, t)` values. */
  lemma {:induction false} InputRemainder<T, V>(s: Storage<T, V>, ts: seq<T>)
    requires forall i :: 0 <= i < |ts| ==> ts[i] in s
    requires Input(s, ts).Some?
    ensures forall t :: t in s ==> Count(ts, t) <= |s[t]| && Input(s, ts).value.1[t] == s[t][Count(ts, t)..]
    decreases |ts|
  {
    if ts != [] {
      var t0 := ts[0];
      var (v, s1) := Read(s, t0);
      InputRemainder(s1, ts[1..]);
      forall t | t in s ensures Count(ts, t) <= |s[t]| && Input(s, ts).value.1[t] == s[t][Count(ts, t)..] {
        CountCons(ts, t);
        if t == t0 {
          assert s[t][1..][Count(ts[1..], t)..] == s[t][Count(ts, t)..];
        }
      }
    }
  }

  /** Reading types `ts` in turn succeeds exactly when every queue holds enough
      values, and then consumes exactly `Count(ts, t)` values of each type. */
  lemma InputConsumes<T, V>(s: Storage<T, V>, ts: seq<T>)
    requires forall i :: 0 <= i < |ts| ==> ts[i] in s
    ensures Input(s, ts).Some? <==> forall t :: t in s ==> Count(ts, t) <= |s[t]|
    ensures Input(s, ts).Some? ==> forall t :: t in s ==> Input(s, ts).value.1[t] == s[t][Count(ts, t)..]
  {
    InputSucceeds(s, ts);
    if Input(s, ts).Some? {
      InputRemainder(s, ts);
    }
  }

  /** Two storages with the same queues are the same storage. */
  lemma Extensionality<T, V>(a: Storage<T, V>, b: Storage<T, V>)
    requires a.Keys == b.Keys
    requires forall t :: t in a ==> a[t] == b[t]
    ensures a == b
  {
  }

  lemma {:induction false} ProjectAppend<T, V>(xs: seq<(T, V)>, ys: seq<(T, V)>, t: T)
    ensures Project(xs + ys, t) == Project(xs, t) + Project(ys, t)
  {
    if xs == [] {
      assert xs + ys == ys;
    } else {
      var head := if xs[0].0 == t then [xs[0].1] else [];
      assert (xs + ys)[0] == xs[0];
      assert (xs + ys)[1..] == xs[1..] + ys;
      assert Project(xs + ys, t) == head + Project(xs[1..] + ys, t);
      ProjectAppend(xs[1..], ys, t);
      assert Project(xs, t) == head + Project(xs[1..], t);
    }
  }

  /** Writing one pack after another is writing their concatenation. */
  lemma OutputAppend<T, V>(s: Storage<T, V>, xs: seq<(T, V)>, ys: seq<(T, V)>)
    requires Admits(s, xs + ys)
    ensures Admits(s, xs) && Admits(Output(s, xs), ys)
    ensures Output(Output(s, xs), ys) == Output(s, xs + ys)
  {
    assert Admits(s, xs) by {
      forall i | 0 <= i < |xs| ensures xs[i].0 in s { assert xs[i] == (xs + ys)[i]; }
    }
    assert Admits(Output(s, xs), ys) by {
      forall i | 0 <= i < |ys| ensures ys[i].0 in s { assert ys[i] == (xs + ys)[|xs| + i]; }
    }
    var a, b := Output(Output(s, xs), ys), Output(s, xs + ys);
    OutputQueues(s, xs);
    OutputQueues(Output(s, xs), ys);
    OutputQueues(s, xs + ys);
    forall t | t in a ensures a[t] == b[t] {
      ProjectAppend(xs, ys, t);
    }
    Extensionality(a, b);
  }

  /** Types do not interfere: writing values of other types leaves the queue
      of type `t` as it was. */
  lemma {:induction false} OutputOtherTypes<T, V>(s: Storage<T, V>, items: seq<(T, V)>, t: T)
    requires Admits(s, items) && t in s
    requires forall i :: 0 <= i < |items| ==> items[i].0 != t
    ensures Output(s, items)[t] == s[t]
  {
    if items != [] {
      OutputOtherTypes(Write(s, items[0].0, items[0].1), items[1..], t);
    }
  }

  /** From a storage that was empty when writing began, the first value read
      of the first written value's type is that value, and what is left is
      the storage as if only the remaining values had been written. */
  lemma ReadFirst<T, V>(s: Storage<T, V>, items: seq<(T, V)>)
    requires Drained(s) && Admits(s, items) && items != []
    ensures Admits(s, items[1..])
    ensures Output(s, items)[items[0].0] != []
    ensures Read(Output(s, items), items[0].0) == (items[0].1, Output(s, items[1..]))
  {
    var t0 := items[0].0;
    assert Admits(s, items[1..]) by {
      forall i | 0 <= i < |items| - 1 ensures items[1..][i].0 in s { assert items[1..][i] == items[i + 1]; }
    }
    var written := Output(s, items);
    var tail := Output(s, items[1..]);
    OutputQueues(s, items);
    OutputQueues(s, items[1..]);
    assert written[t0] == [items[0].1] + Project(items[1..], t0);
    var (v, rest) := Read(written, t0);
    forall t | t in rest ensures rest[t] == tail[t] {
      if t == t0 {
        assert [v] + rest[t] == [items[0].1] + Project(items[1..], t0);
      }
    }
    Extensionality(rest, tail);
  }

  /** FIFO round trip: after writing `xs` and then `ys` into an empty
      storage, reading values of the types of `xs`, in order, yields exactly
      the values of `xs` and leaves the storage holding `ys` alone. */
  lemma {:induction false} InputAfterOutput<T, V>(s: Storage<T, V>, xs: seq<(T, V)>, ys: seq<(T, V)>)
    requires Drained(s) && Admits(s, xs + ys)
    ensures Admits(s, ys) && forall i :: 0 <= i < |xs| ==> Tags(xs)[i] in s
    ensures Input(Output(s, xs + ys), Tags(xs)) == Some((Values(xs), Output(s, ys)))
    decreases |xs|
  {
    assert Admits(s, ys) by {
      forall i | 0 <= i < |ys| ensures ys[i].0 in s { assert ys[i] == (xs + ys)[|xs| + i]; }
    }
    assert forall i :: 0 <= i < |xs| ==> Tags(xs)[i] in s by {
      forall i | 0 <= i < |xs| ensures Tags(xs)[i] in s { assert xs[i] == (xs + ys)[i]; }
    }
    if xs != [] {
      var items := xs + ys;
      var ts := Tags(xs);
      assert items[0] == xs[0] && ts[0] == xs[0].0;
      assert items[1..] == xs[1..] + ys;
      assert ts[1..] == Tags(xs[1..]);
      assert Values(xs) == [xs[0].1] + Values(xs[1..]);
      ReadFirst(s, items);
      InputAfterOutput(s, xs[1..], ys);
      var written := Output(s, items);
      var rest := Output(s, xs[1..] + ys);
      assert Read(written, ts[0]) == (xs[0].1, rest);
      InputCons(written, ts, xs[0].1, rest);
    } else {
      assert xs + ys == ys;
      assert Values(xs) == [] && Tags(xs) == [];
    }
  }

  lemma InputCons<T, V>(s: Storage<T, V>, ts: seq<T>, v: V, s1: Storage<T, V>)
    requires forall i :: 0 <= i < |ts| ==> ts[i] in s
    requires ts != [] && s[ts[0]] != [] && Read(s, ts[0]) == (v, s1)
    ensures s1.Keys == s.Keys
    ensures Input(s1, ts[1..]).Some? ==>
      Input(s, ts) == Some(([v] + Input(s1, ts[1..]).value.0, Input(s1, ts[1..]).value.1))
  {
  }

  /** The plain round trip: what was written into an empty storage is read
      back in order, and the storage is empty again. */
  lemma RoundTrip<T, V>(s: Storage<T, V>, items: seq<(T, V)>)
    requires Drained(s) && Admits(s, items)
    ensures forall i :: 0 <= i < |items| ==> Tags(items)[i] in s
    ensures Input(Output(s, items), Tags(items)) == Some((Values(items), s))
  {
    assert items + [] == items;
    InputAfterOutput(s, items, []);
  }
}
