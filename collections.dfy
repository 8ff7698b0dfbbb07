/** Facts about sequences used by the parser and the hierarchy proofs. */
module Collections {

  /** No element occurs twice in `s`. */
  ghost predicate NoDup<T>(s: seq<T>)
  {
    forall i, j :: 0 <= i < j < |s| ==> s[i] != s[j]
  }

  /** `order` enumerates the keys of `m`, each exactly once
      (a model of the iteration order of a Java HashMap). */
  ghost predicate IsEnumeration<K(!new), V>(order: seq<K>, m: map<K, V>)
  {
    NoDup(order) && (forall k :: k in order <==> k in m)
  }

  lemma NoDupConcat<T>(a: seq<T>, b: seq<T>)
    requires NoDup(a) && NoDup(b)
    requires forall x :: x in a ==> x !in b
    ensures NoDup(a + b)
  {
    forall i, j | 0 <= i < j < |a + b|
      ensures (a + b)[i] != (a + b)[j]
    {
      if j >= |a| && i < |a| {
        assert (a + b)[i] in a && (a + b)[j] == b[j - |a|];
      }
    }
  }

  /** The two parts of a duplicate-free concatenation share no element. */
  lemma NoDupDisjoint<T>(a: seq<T>, b: seq<T>)
    requires NoDup(a + b)
    ensures forall x :: x in a ==> x !in b
  {
    forall i, j | 0 <= i < |a| && 0 <= j < |b|
      ensures a[i] != b[j]
    {
      assert (a + b)[i] == a[i] && (a + b)[|a| + j] == b[j];
    }
  }

  /** A duplicate-free sequence has as many distinct elements as it is long. */
  lemma {:induction false} NoDupCardinality<T>(s: seq<T>)
    requires NoDup(s)
    ensures |set x | x in s| == |s|
  {
    if s != [] {
      var t := s[..|s| - 1];
      assert NoDup(t);
      NoDupCardinality(t);
      var last := s[|s| - 1];
      assert (set x | x in s) == (set x | x in t) + {last};
      assert last !in (set x | x in t);
    }
  }

  /** A duplicate-free sequence drawn from `universe` is no longer than `universe` is large. */
  lemma NoDupBound<T>(s: seq<T>, universe: set<T>)
    requires NoDup(s)
    requires forall x :: x in s ==> x in universe
    ensures |s| <= |universe|
  {
    NoDupCardinality(s);
    SubsetCardinality((set x | x in s), universe);
  }

  lemma {:induction false} SubsetCardinality<T>(a: set<T>, b: set<T>)
    requires a <= b
    ensures |a| <= |b|
    decreases a
  {
    if a != {} {
      var x :| x in a;
      SubsetCardinality(a - {x}, b - {x});
    }
  }

  /** The sequences of `ss` one after the other. */
  function Flatten<T>(ss: seq<seq<T>>): seq<T>
    decreases |ss|
  {
    if ss == [] then [] else Flatten(ss[..|ss| - 1]) + ss[|ss| - 1]
  }

  /** The part of `ss` an element of its flattening comes from. */
  lemma {:induction false} FlattenSource<T>(ss: seq<seq<T>>, x: T) returns (j: nat)
    requires x in Flatten(ss)
    ensures j < |ss| && x in ss[j]
    decreases |ss|
  {
    var init := ss[..|ss| - 1];
    if x in Flatten(init) {
      j := FlattenSource(init, x);
    } else {
      j := |ss| - 1;
    }
  }

  lemma {:induction false} InFlatten<T>(ss: seq<seq<T>>, j: nat, x: T)
    requires j < |ss| && x in ss[j]
    ensures x in Flatten(ss)
    decreases |ss|
  {
    if j < |ss| - 1 {
      InFlatten(ss[..|ss| - 1], j, x);
    }
  }

  /** Duplicate-free, pairwise disjoint parts flatten to a duplicate-free sequence. */
  lemma {:induction false} FlattenNoDup<T>(ss: seq<seq<T>>)
    requires forall j :: 0 <= j < |ss| ==> NoDup(ss[j])
    requires forall i, j :: 0 <= i < j < |ss| ==> forall x :: x in ss[i] ==> x !in ss[j]
    ensures NoDup(Flatten(ss))
    decreases |ss|
  {
    if ss != [] {
      var init := ss[..|ss| - 1];
      FlattenNoDup(init);
      forall x | x in Flatten(init)
        ensures x !in ss[|ss| - 1]
      {
        var i := FlattenSource(init, x);
      }
      NoDupConcat(Flatten(init), ss[|ss| - 1]);
    }
  }

  /** Non-empty parts flatten to a sequence at least as long as there are parts. */
  lemma {:induction false} FlattenLength<T>(ss: seq<seq<T>>)
    requires forall j :: 0 <= j < |ss| ==> ss[j] != []
    ensures |Flatten(ss)| >= |ss|
    decreases |ss|
  {
    if ss != [] {
      FlattenLength(ss[..|ss| - 1]);
    }
  }

  /** Empty parts at the end add nothing to the flattening. */
  lemma {:induction false} FlattenEmptyTail<T>(ss: seq<seq<T>>, n: nat)
    requires n <= |ss| && forall j :: n <= j < |ss| ==> ss[j] == []
    ensures Flatten(ss) == Flatten(ss[..n])
    decreases |ss|
  {
    if n < |ss| {
      var init := ss[..|ss| - 1];
      assert forall j :: n <= j < |init| ==> init[j] == ss[j];
      FlattenEmptyTail(init, n);
      assert init[..n] == ss[..n];
      assert ss[|ss| - 1] == [];
      assert Flatten(ss) == Flatten(init) + ss[|ss| - 1];
    } else {
      assert ss[..n] == ss;
    }
  }

  /** Some enumeration of the keys of `m`: the iteration order of a Java HashMap, which
      the model leaves open. */
  method EnumerateKeys<K(!new), V>(m: map<K, V>) returns (order: seq<K>)
    ensures IsEnumeration(order, m)
  {
    var rest := m.Keys;
    order := [];
    while rest != {}
      invariant NoDup(order)
      invariant forall k :: k in m <==> k in order || k in rest
      invariant forall k :: k in order ==> k !in rest
      decreases rest
    {
      var k :| k in rest;
      NoDupConcat(order, [k]);
      order := order + [k];
      rest := rest - {k};
    }
  }

  /** A prefix of a duplicate-free sequence drawn from `universe` has at most |universe| elements. */
  lemma PrefixBound<T>(s: seq<T>, n: nat, universe: set<T>)
    requires n <= |s| && NoDup(s)
    requires forall x :: x in s ==> x in universe
    ensures n <= |universe|
  {
    var p := s[..n];
    assert forall x :: x in p ==> x in s;
    NoDupBound(p, universe);
  }

  lemma FlattenSnoc<T>(ss: seq<seq<T>>, s: seq<T>)
    ensures Flatten(ss + [s]) == Flatten(ss) + s
  {
    assert (ss + [s])[..|ss|] == ss;
  }

  /** Putting a key into a union puts it into the right operand. */
  lemma UnionUpdate<K, V>(a: map<K, V>, b: map<K, V>, k: K, v: V)
    ensures (a + b)[k := v] == a + b[k := v]
  {
  }

  lemma EmptyUnion<K, V>(m: map<K, V>)
    ensures map[] + m == m
  {
  }
}
