/** `type_label` and `count_nodes`: the one-line description the viewer shows for a value,
    and the per-kind census of every node of a document. */
module NodeStats {
  import opened JsonValues
  import opened Text

  /** The six kinds of JSON value, as `type_label` tells them apart. */
  datatype Kind = ObjectKind | ArrayKind | StringKind | NumberKind | BooleanKind | NullKind

  function KindOf(v: Json): Kind
  {
    match v
    case Obj(_) => ObjectKind
    case Arr(_) => ArrayKind
    case Str(_) => StringKind
    case Num(_) => NumberKind
    case Bool(_) => BooleanKind
    case Null => NullKind
  }

  /** `type_label(v)`: the kind, with the number of keys or items for a container. The
      boolean test comes before the number test, so a boolean is labelled `boolean`. */
  function TypeLabel(v: Json): (r: string)
    ensures r == "string" <==> v.Str?
    ensures r == "boolean" <==> v.Bool?
    ensures r == "number" <==> v.Num?
    ensures r == "null" <==> v.Null?
    ensures v.Obj? ==> "object " <= r
    ensures v.Arr? ==> "array " <= r
  {
    match v
    case Obj(fs) => "object \U{2022} " + DecimalString(|fs|) + " key(s)"
    case Arr(items) => "array \U{2022} " + DecimalString(|items|) + " item(s)"
    case Str(_) => "string"
    case Bool(_) => "boolean"
    case Num(_) => "number"
    case Null => "null"
  }

  lemma {:induction false} FramedTextsAgree(pre: string, a: string, b: string, post: string)
    requires pre + a + post == pre + b + post
    ensures a == b
  {
    var s := pre + a + post;
    assert |a| == |b|;
    assert a == s[|pre|..|pre| + |a|];
    assert b == (pre + b + post)[|pre|..|pre| + |b|];
  }

  lemma DecimalStringInjective(m: nat, n: nat)
    requires DecimalString(m) == DecimalString(n)
    ensures m == n
  {
    DecimalRoundTrip(m);
    DecimalRoundTrip(n);
  }

  /** Two values get the same label exactly when they are of the same kind and, for
      containers, of the same size: the label names the kind and gives the exact count. */
  lemma {:induction false} TypeLabelDistinguishes(v: Json, w: Json)
    ensures TypeLabel(v) == TypeLabel(w)
        <==> KindOf(v) == KindOf(w) && (IsContainer(v) ==> Width(v) == Width(w))
  {
    if TypeLabel(v) == TypeLabel(w) {
      var l := TypeLabel(v);
      assert l[0] == TypeLabel(w)[0];
      if v.Obj? && w.Obj? {
        FramedTextsAgree("object \U{2022} ", DecimalString(|v.fields|), DecimalString(|w.fields|), " key(s)");
        DecimalStringInjective(|v.fields|, |w.fields|);
      } else if v.Arr? && w.Arr? {
        FramedTextsAgree("array \U{2022} ", DecimalString(|v.items|), DecimalString(|w.items|), " item(s)");
        DecimalStringInjective(|v.items|, |w.items|);
      } else if (v.Num? || v.Null?) && (w.Num? || w.Null?) {
        assert l[2] == TypeLabel(w)[2];
      }
    }
  }

  // ---------------------------------------------------------------------------------------
  // The census

  /** The kinds of the nodes of `v` in the order `_walk` visits them: `v` itself, then each
      child's nodes in turn. */
  function Kinds(v: Json): seq<Kind>
    decreases v, 1, 0
  {
    [KindOf(v)] + KindsOfChildren(v, Width(v))
  }

  /** The kinds of the nodes below the first `n` children of `v`. */
  function KindsOfChildren(v: Json, n: nat): seq<Kind>
    requires n <= Width(v)
    decreases v, 0, n
  {
    if n == 0 then [] else KindsOfChildren(v, n - 1) + Kinds(Child(v, n - 1))
  }

  /** How many times `k` occurs in `ks`. */
  function Occurrences(ks: seq<Kind>, k: Kind): nat
  {
    if ks == [] then 0
    else Occurrences(ks[..|ks| - 1], k) + (if ks[|ks| - 1] == k then 1 else 0)
  }

  /** The number of nodes of `v` of kind `k`, itself included. */
  function Count(v: Json, k: Kind): nat
  {
    Occurrences(Kinds(v), k)
  }

  /** The number of nodes of `v`, itself included. */
  function Size(v: Json): nat
  {
    |Kinds(v)|
  }

  /** The counter a node of kind `k` goes to. As written (`intended` false) the number test
      `isinstance(n, (int, float))` comes before the boolean test and also holds for a Python
      `bool`, so a boolean goes to `numbers`; `intended` sends it to `booleans`. */
  function Counter(k: Kind, intended: bool): Kind
  {
    if k == BooleanKind && !intended then NumberKind else k
  }

  /** The counters bumped for the nodes `ks`, in order. */
  function Routed(ks: seq<Kind>, intended: bool): (r: seq<Kind>)
    ensures |r| == |ks|
  {
    seq(|ks|, i requires 0 <= i < |ks| => Counter(ks[i], intended))
  }

  /** The seven counters of `count_nodes`. */
  datatype Stats = Stats(objects: int, arrays: int, strings: int, numbers: int,
                         booleans: int, nulls: int, totalNodes: int)

  const Zero := Stats(0, 0, 0, 0, 0, 0, 0)

  function Add(a: Stats, b: Stats): Stats
  {
    Stats(a.objects + b.objects, a.arrays + b.arrays, a.strings + b.strings,
          a.numbers + b.numbers, a.booleans + b.booleans, a.nulls + b.nulls,
          a.totalNodes + b.totalNodes)
  }

  /** One node counted under `k`. */
  function Unit(k: Kind): Stats
  {
    Stats(if k == ObjectKind then 1 else 0, if k == ArrayKind then 1 else 0,
          if k == StringKind then 1 else 0, if k == NumberKind then 1 else 0,
          if k == BooleanKind then 1 else 0, if k == NullKind then 1 else 0, 1)
  }

  /** The counters after bumping `ks` in order from all zeros. */
  function Census(ks: seq<Kind>): Stats
  {
    if ks == [] then Zero else Add(Census(ks[..|ks| - 1]), Unit(ks[|ks| - 1]))
  }

  /** The counters after walking `v` from all zeros. */
  function Tally(v: Json, intended: bool): Stats
  {
    Census(Routed(Kinds(v), intended))
  }

  /** The counters after walking the first `n` children of `v` from all zeros. */
  function TallyChildren(v: Json, intended: bool, n: nat): Stats
    requires n <= Width(v)
  {
    Census(Routed(KindsOfChildren(v, n), intended))
  }

  lemma AddAssociates(a: Stats, b: Stats, c: Stats)
    ensures Add(Add(a, b), c) == Add(a, Add(b, c))
  {
  }

  /** Bumping one counter and `total_nodes` adds one node of that kind. */
  lemma BumpAddsUnit(s: Stats, k: Kind)
    ensures k == ObjectKind ==> Add(s, Unit(k)) == s.(objects := s.objects + 1, totalNodes := s.totalNodes + 1)
    ensures k == ArrayKind ==> Add(s, Unit(k)) == s.(arrays := s.arrays + 1, totalNodes := s.totalNodes + 1)
    ensures k == StringKind ==> Add(s, Unit(k)) == s.(strings := s.strings + 1, totalNodes := s.totalNodes + 1)
    ensures k == NumberKind ==> Add(s, Unit(k)) == s.(numbers := s.numbers + 1, totalNodes := s.totalNodes + 1)
    ensures k == BooleanKind ==> Add(s, Unit(k)) == s.(booleans := s.booleans + 1, totalNodes := s.totalNodes + 1)
    ensures k == NullKind ==> Add(s, Unit(k)) == s.(nulls := s.nulls + 1, totalNodes := s.totalNodes + 1)
  {
  }

  /** Counting two runs of nodes one after the other adds their counters. */
  lemma {:induction false} CensusAppend(a: seq<Kind>, b: seq<Kind>)
    ensures Census(a + b) == Add(Census(a), Census(b))
  {
    if b == [] {
      assert a + b == a;
    } else {
      var b' := b[..|b| - 1];
      assert (a + b)[..|a + b| - 1] == a + b';
      CensusAppend(a, b');
      AddAssociates(Census(a), Census(b'), Unit(b[|b| - 1]));
    }
  }

  lemma RoutedAppend(a: seq<Kind>, b: seq<Kind>, intended: bool)
    ensures Routed(a + b, intended) == Routed(a, intended) + Routed(b, intended)
  {
  }

  lemma AddZero(a: Stats)
    ensures Add(Zero, a) == a && Add(a, Zero) == a
  {
  }

  lemma CensusOfOne(k: Kind)
    ensures Census([k]) == Unit(k)
  {
    assert [k][..0] == [];
    AddZero(Unit(k));
  }

  /** A scalar has no children to count. */
  lemma NoChildrenNoCounts(v: Json, intended: bool)
    requires !IsContainer(v)
    ensures TallyChildren(v, intended, Width(v)) == Zero
  {
    assert KindsOfChildren(v, Width(v)) == [];
    assert Routed([], intended) == [];
  }

  /** Walking a node: its own counter, then its children. */
  lemma TallyUnfolds(v: Json, intended: bool)
    ensures Tally(v, intended) == Add(Unit(Counter(KindOf(v), intended)), TallyChildren(v, intended, Width(v)))
  {
    var rest := KindsOfChildren(v, Width(v));
    RoutedAppend([KindOf(v)], rest, intended);
    var own := Routed([KindOf(v)], intended);
    assert own == [Counter(KindOf(v), intended)];
    CensusOfOne(Counter(KindOf(v), intended));
    CensusAppend(own, Routed(rest, intended));
  }

  /** Walking one more child adds that child's counters. */
  lemma TallyChildrenUnfolds(v: Json, intended: bool, n: nat)
    requires n < Width(v)
    ensures TallyChildren(v, intended, n + 1) == Add(TallyChildren(v, intended, n), Tally(Child(v, n), intended))
  {
    RoutedAppend(KindsOfChildren(v, n), Kinds(Child(v, n)), intended);
    CensusAppend(Routed(KindsOfChildren(v, n), intended), Routed(Kinds(Child(v, n)), intended));
  }

  /** The step of the walk over one node: its own counter, then its children. */
  lemma OwnCounterThenChildren(start: Stats, after: Stats, v: Json, intended: bool)
    requires after == Add(Add(start, Unit(Counter(KindOf(v), intended))), TallyChildren(v, intended, Width(v)))
    ensures after == Add(start, Tally(v, intended))
  {
    TallyUnfolds(v, intended);
    AddAssociates(start, Unit(Counter(KindOf(v), intended)), TallyChildren(v, intended, Width(v)));
  }

  lemma NothingWalkedYet(start: Stats, v: Json, intended: bool)
    ensures Add(start, TallyChildren(v, intended, 0)) == start
  {
    assert Routed([], intended) == [];
    AddZero(start);
  }

  /** The loop step of the walk over the children: walking child `i` after the first `i`
      children leaves the counters of the first `i + 1`. */
  lemma OneMoreChild(start: Stats, before: Stats, after: Stats, v: Json, intended: bool, i: nat)
    requires i < Width(v)
    requires before == Add(start, TallyChildren(v, intended, i))
    requires after == Add(before, Tally(Child(v, i), intended))
    ensures after == Add(start, TallyChildren(v, intended, i + 1))
  {
    TallyChildrenUnfolds(v, intended, i);
    AddAssociates(start, TallyChildren(v, intended, i), Tally(Child(v, i), intended));
  }

  /** Each counter of a census holds the occurrences of its kind, and `total_nodes` the
      length. */
  lemma {:induction false} CensusCountsOccurrences(ks: seq<Kind>)
    ensures var s := Census(ks);
      && s.objects == Occurrences(ks, ObjectKind)
      && s.arrays == Occurrences(ks, ArrayKind)
      && s.strings == Occurrences(ks, StringKind)
      && s.numbers == Occurrences(ks, NumberKind)
      && s.booleans == Occurrences(ks, BooleanKind)
      && s.nulls == Occurrences(ks, NullKind)
      && s.totalNodes == |ks|
  {
    if ks != [] {
      CensusCountsOccurrences(ks[..|ks| - 1]);
    }
  }

  lemma OccurrencesOfOne(k: Kind, k': Kind)
    ensures Occurrences([k], k') == if k == k' then 1 else 0
  {
    assert [k][..0] == [];
  }

  /** Every node is of exactly one of the six kinds. */
  lemma {:induction false} OccurrencesAddUp(ks: seq<Kind>)
    ensures Occurrences(ks, ObjectKind) + Occurrences(ks, ArrayKind) + Occurrences(ks, StringKind)
          + Occurrences(ks, NumberKind) + Occurrences(ks, BooleanKind) + Occurrences(ks, NullKind) == |ks|
  {
    if ks != [] {
      OccurrencesAddUp(ks[..|ks| - 1]);
    }
  }

  /** As written, `numbers` takes the numbers and the booleans, `booleans` takes nothing and
      every other counter takes exactly its own kind; as intended nothing is re-routed. */
  lemma {:induction false} RoutingMovesOnlyBooleans(ks: seq<Kind>, k: Kind)
    ensures Routed(ks, true) == ks
    ensures k != NumberKind && k != BooleanKind ==> Occurrences(Routed(ks, false), k) == Occurrences(ks, k)
    ensures Occurrences(Routed(ks, false), NumberKind) == Occurrences(ks, NumberKind) + Occurrences(ks, BooleanKind)
    ensures Occurrences(Routed(ks, false), BooleanKind) == 0
  {
    if ks != [] {
      var p := ks[..|ks| - 1];
      RoutingMovesOnlyBooleans(p, k);
      assert Routed(ks, false)[..|ks| - 1] == Routed(p, false);
    }
  }

  /** What `count_nodes` reports, counter by counter: `total_nodes` is the number of nodes
      and the sum of the six counters, `numbers` counts numbers and booleans together, and
      `booleans` stays 0. */
  lemma CountNodesCensus(v: Json)
    ensures var s := Tally(v, false);
      && s.objects == Count(v, ObjectKind)
      && s.arrays == Count(v, ArrayKind)
      && s.strings == Count(v, StringKind)
      && s.numbers == Count(v, NumberKind) + Count(v, BooleanKind)
      && s.booleans == 0
      && s.nulls == Count(v, NullKind)
      && s.totalNodes == Size(v)
      && s.totalNodes == s.objects + s.arrays + s.strings + s.numbers + s.booleans + s.nulls
  {
    var ks := Kinds(v);
    CensusCountsOccurrences(Routed(ks, false));
    RoutingMovesOnlyBooleans(ks, ObjectKind);
    RoutingMovesOnlyBooleans(ks, ArrayKind);
    RoutingMovesOnlyBooleans(ks, StringKind);
    RoutingMovesOnlyBooleans(ks, NullKind);
    OccurrencesAddUp(ks);
  }

  /** The intended census: each counter holds exactly the nodes of its kind, so booleans and
      numbers are counted apart, and the six counters still add up to the total. */
  lemma IntendedTallyCountsEachKind(v: Json)
    ensures var s := Tally(v, true);
      && s.objects == Count(v, ObjectKind)
      && s.arrays == Count(v, ArrayKind)
      && s.strings == Count(v, StringKind)
      && s.numbers == Count(v, NumberKind)
      && s.booleans == Count(v, BooleanKind)
      && s.nulls == Count(v, NullKind)
      && s.totalNodes == Size(v)
      && s.totalNodes == s.objects + s.arrays + s.strings + s.numbers + s.booleans + s.nulls
  {
    var ks := Kinds(v);
    RoutingMovesOnlyBooleans(ks, ObjectKind);
    CensusCountsOccurrences(ks);
    OccurrencesAddUp(ks);
  }

  /** A scalar is one node, counted under its own counter. */
  lemma ScalarTally(v: Json, intended: bool)
    requires !IsContainer(v)
    ensures Tally(v, intended) == Unit(Counter(KindOf(v), intended))
  {
    TallyUnfolds(v, intended);
    NoChildrenNoCounts(v, intended);
    AddZero(Unit(Counter(KindOf(v), intended)));
  }

  /** A scalar is the one node of its kind. */
  lemma ScalarCount(v: Json, k: Kind)
    requires !IsContainer(v)
    ensures Count(v, k) == if KindOf(v) == k then 1 else 0
  {
    var ks := Kinds(v);
    assert KindsOfChildren(v, Width(v)) == [];
    assert ks == [KindOf(v)] + [];
    assert [KindOf(v)] + [] == [KindOf(v)];
    OccurrencesOfOne(KindOf(v), k);
  }

  /** As written, a lone boolean is labelled a boolean, yet it is counted as a number. */
  lemma BooleanCountedAsNumber(v: Json)
    requires v.Bool?
    ensures TypeLabel(v) == "boolean"
    ensures Count(v, BooleanKind) == 1
    ensures Tally(v, false).booleans == 0
    ensures Tally(v, false).numbers == 1
  {
    ScalarTally(v, false);
    ScalarCount(v, BooleanKind);
  }

  // ---------------------------------------------------------------------------------------
  // The method

  /** The `stats` dictionary that `_walk` updates in place. */
  class NodeCounter {
    var objects: int
    var arrays: int
    var strings: int
    var numbers: int
    var booleans: int
    var nulls: int
    var totalNodes: int

    function Snapshot(): Stats
      reads this
    {
      Stats(objects, arrays, strings, numbers, booleans, nulls, totalNodes)
    }

    constructor ()
      ensures Snapshot() == Zero
    {
      objects, arrays, strings, numbers := 0, 0, 0, 0;
      booleans, nulls, totalNodes := 0, 0, 0;
    }

    /** `_walk(n)`: counts `n` and everything below it. */
    method Walk(n: Json)
      modifies this
      ensures Snapshot() == Add(old(Snapshot()), Tally(n, false))
      decreases n, 1
    {
      ghost var start := Snapshot();
      ghost var k := Counter(KindOf(n), false);
      totalNodes := totalNodes + 1;
      if n.Obj? {
        objects := objects + 1;
        BumpAddsUnit(start, ObjectKind);
        WalkChildren(n);
      } else if n.Arr? {
        arrays := arrays + 1;
        BumpAddsUnit(start, ArrayKind);
        WalkChildren(n);
      } else {
        if n.Str? {
          strings := strings + 1;
          BumpAddsUnit(start, StringKind);
        } else if n.Num? || n.Bool? {
          // A Python bool is an int, so booleans take this branch.
          numbers := numbers + 1;
          BumpAddsUnit(start, NumberKind);
        } else {
          nulls := nulls + 1;
          BumpAddsUnit(start, NullKind);
        }
        NoChildrenNoCounts(n, false);
        AddZero(Add(start, Unit(k)));
      }
      OwnCounterThenChildren(start, Snapshot(), n, false);
    }

    /** The `for` loop over the values of an object or the items of an array. */
    method WalkChildren(n: Json)
      modifies this
      ensures Snapshot() == Add(old(Snapshot()), TallyChildren(n, false, Width(n)))
      decreases n, 0
    {
      ghost var start := Snapshot();
      NothingWalkedYet(start, n, false);
      var i := 0;
      while i < Width(n)
        invariant 0 <= i <= Width(n)
        invariant Snapshot() == Add(start, TallyChildren(n, false, i))
      {
        ghost var before := Snapshot();
        Walk(Child(n, i));
        OneMoreChild(start, before, Snapshot(), n, false, i);
        i := i + 1;
      }
    }
  }

  /** `count_nodes(node)`: a fresh counter, one walk, the final counters. */
  method CountNodes(node: Json) returns (stats: Stats)
    ensures stats == Tally(node, false)
  {
    var counter := new NodeCounter();
    counter.Walk(node);
    stats := counter.Snapshot();
  }
}
