/** `search_json`: a case-insensitive search over keys and scalar values that reports the
    paths of the matches, without duplicates and in the order they were first found. */
module Search {
  import opened JsonValues
  import opened Text

  // ---------------------------------------------------------------------------------------
  // Order-preserving de-duplication

  predicate NoDuplicates(xs: seq<string>)
  {
    forall i, j :: 0 <= i < j < |xs| ==> xs[i] != xs[j]
  }

  /** Position of the first occurrence of `x` in `xs`. */
  function FirstIndex(xs: seq<string>, x: string): (i: nat)
    requires x in xs
    ensures i < |xs| && xs[i] == x && x !in xs[..i]
  {
    if xs[0] == x then 0 else 1 + FirstIndex(xs[1..], x)
  }

  /** The first occurrence of `x` does not move when more is appended. */
  lemma {:induction false} FirstIndexOfPrefix(xs: seq<string>, ys: seq<string>, x: string)
    requires x in xs
    ensures FirstIndex(xs + ys, x) == FirstIndex(xs, x)
  {
    if xs[0] != x {
      assert (xs + ys)[1..] == xs[1..] + ys;
      FirstIndexOfPrefix(xs[1..], ys, x);
    }
  }

  /** What the `seen`-set loop leaves in `out`: each element of `xs` at its first occurrence. */
  function Dedup(xs: seq<string>): (r: seq<string>)
    ensures forall x :: x in r <==> x in xs
    ensures |r| <= |xs|
  {
    if xs == [] then []
    else
      var d := Dedup(xs[..|xs| - 1]);
      assert xs == xs[..|xs| - 1] + [xs[|xs| - 1]];
      if xs[|xs| - 1] in d then d else d + [xs[|xs| - 1]]
  }

  /** De-duplication leaves no duplicates, and it lists the elements in the order of their
      first occurrence. Together with the element set that `Dedup` keeps, this determines the
      result completely. */
  lemma {:induction false} DedupKeepsFirstOccurrences(xs: seq<string>)
    ensures var r := Dedup(xs);
      && NoDuplicates(r)
      && forall i, j :: 0 <= i < j < |r| ==> FirstIndex(xs, r[i]) < FirstIndex(xs, r[j])
  {
    if xs != [] {
      var p := xs[..|xs| - 1];
      var y := xs[|xs| - 1];
      assert xs == p + [y];
      DedupKeepsFirstOccurrences(p);
      var d := Dedup(p);
      forall x | x in d
        ensures FirstIndex(xs, x) == FirstIndex(p, x)
      {
        FirstIndexOfPrefix(p, [y], x);
      }
      if y !in d {
        assert FirstIndex(xs, y) == |p|;
        var r := d + [y];
        forall i, j | 0 <= i < j < |r|
          ensures FirstIndex(xs, r[i]) < FirstIndex(xs, r[j])
        {
          if j < |d| {
            assert r[i] == d[i] && r[j] == d[j];
          } else {
            assert r[i] == d[i];
          }
        }
      }
    }
  }

  /** De-duplicating twice changes nothing. */
  lemma {:induction false} DedupIdempotent(xs: seq<string>)
    ensures Dedup(Dedup(xs)) == Dedup(xs)
  {
    DedupKeepsFirstOccurrences(xs);
    DedupOfDistinct(Dedup(xs));
  }

  /** A list without duplicates is its own de-duplication. */
  lemma {:induction false} DedupOfDistinct(xs: seq<string>)
    requires NoDuplicates(xs)
    ensures Dedup(xs) == xs
  {
    if xs != [] {
      var p := xs[..|xs| - 1];
      assert NoDuplicates(p);
      DedupOfDistinct(p);
      assert xs == p + [xs[|xs| - 1]];
    }
  }

  // ---------------------------------------------------------------------------------------
  // Hits

  /** Python's `str(v)` for a scalar: the text of a string, the number's own rendering,
      `True`/`False`, `None`. */
  function Render(v: Json): string
    requires !IsContainer(v)
  {
    match v
    case Str(t) => t
    case Num(lexeme) => lexeme
    case Bool(b) => if b then "True" else "False"
    case Null => "None"
  }

  /** A search matches a string against its text and a number against its lexeme, while
      booleans and null are matched as Python spells them: `true`, `false`, `none`. */
  lemma RenderedScalars(v: Json)
    requires !IsContainer(v)
    ensures v.Str? ==> Lower(Render(v)) == Lower(v.text)
    ensures v.Num? ==> Lower(Render(v)) == Lower(v.lexeme)
    ensures v.Bool? ==> Lower(Render(v)) == if v.value then "true" else "false"
    ensures v.Null? ==> Lower(Render(v)) == "none"
  {
    var r := Render(v);
    if v.Bool? || v.Null? {
      assert Lower(r) == [LowerChar(r[0])] + Lower(r[1..]);
    }
  }

  /** `q in str(v).lower()` for a scalar. */
  predicate ScalarMatches(v: Json, q: string)
    requires !IsContainer(v)
  {
    Contains(q, Lower(Render(v)))
  }

  /** The path of member `k` below `path`: `path.k`, or just `k` at the root. */
  function KeyPath(path: string, k: string): string
  {
    if path == "" then k else path + "." + k
  }

  /** The path of item `i` below `path`: `path[i]`. */
  function IndexPath(path: string, i: nat): string
  {
    path + "[" + DecimalString(i) + "]"
  }

  /** The hits contributed by the `i`-th child, in the order the loop body appends them. */
  function ChildHits(v: Json, q: string, path: string, i: nat): seq<string>
    requires i < Width(v)
    decreases v, 0, 0
  {
    var c := Child(v, i);
    if v.Obj? then
      var kp := KeyPath(path, v.fields[i].0);
      (if Contains(q, Lower(v.fields[i].0)) then [kp] else [])
      + (if IsContainer(c) then SearchSpec(c, q, kp) else if ScalarMatches(c, q) then [kp] else [])
    else
      var ip := IndexPath(path, i);
      if IsContainer(c) then SearchSpec(c, q, ip) else if ScalarMatches(c, q) then [ip] else []
  }

  /** The `hits` list after the first `n` children, before de-duplication. */
  function RawHits(v: Json, q: string, path: string, n: nat): seq<string>
    requires n <= Width(v)
    decreases v, 1, n
  {
    if n == 0 then [] else RawHits(v, q, path, n - 1) + ChildHits(v, q, path, n - 1)
  }

  lemma RawHitsStep(v: Json, q: string, path: string, i: nat)
    requires i < Width(v)
    ensures RawHits(v, q, path, i + 1) == RawHits(v, q, path, i) + ChildHits(v, q, path, i)
  {
  }

  /** What `search_json(v, query, path)` returns. */
  function SearchSpec(v: Json, query: string, path: string): (r: seq<string>)
    decreases v, 2, 0
    ensures !IsContainer(v) ==> r == []
  {
    Dedup(RawHits(v, Lower(query), path, Width(v)))
  }

  /** The result has no duplicate paths and keeps the order in which each path was first
      found. */
  lemma SearchHasNoDuplicates(v: Json, query: string, path: string)
    ensures var r := SearchSpec(v, query, path);
      var hits := RawHits(v, Lower(query), path, Width(v));
      && NoDuplicates(r)
      && (forall h :: h in r <==> h in hits)
      && (forall i, j :: 0 <= i < j < |r| ==> FirstIndex(hits, r[i]) < FirstIndex(hits, r[j]))
  {
    DedupKeepsFirstOccurrences(RawHits(v, Lower(query), path, Width(v)));
  }

  /** The query is lower-cased before matching, so its case does not matter. */
  lemma {:induction false} QueryCaseIsIgnored(v: Json, query: string, path: string)
    ensures SearchSpec(v, query, path) == SearchSpec(v, Lower(query), path)
  {
    LowerIdempotent(query);
  }

  /** Array indices are never matched: an array of scalars none of which matches yields
      nothing, whatever the query and however many items there are. */
  lemma {:induction false} IndicesAreNotSearched(v: Json, query: string, path: string)
    requires v.Arr?
    requires forall i :: 0 <= i < |v.items| ==> !IsContainer(v.items[i]) && !ScalarMatches(v.items[i], Lower(query))
    ensures SearchSpec(v, query, path) == []
  {
    RawHitsOfNonMatchingItems(v, Lower(query), path, |v.items|);
  }

  lemma {:induction false} RawHitsOfNonMatchingItems(v: Json, q: string, path: string, n: nat)
    requires v.Arr? && n <= |v.items|
    requires forall i :: 0 <= i < |v.items| ==> !IsContainer(v.items[i]) && !ScalarMatches(v.items[i], q)
    ensures RawHits(v, q, path, n) == []
  {
    if n > 0 {
      RawHitsOfNonMatchingItems(v, q, path, n - 1);
      assert Child(v, n - 1) == v.items[n - 1];
      assert ChildHits(v, q, path, n - 1) == [];
    }
  }

  /** Every hit lies below the starting path: it extends `path` when `path` is not empty. */
  lemma {:induction false} HitsExtendThePath(v: Json, query: string, path: string)
    requires path != ""
    ensures forall h :: h in SearchSpec(v, query, path) ==> path <= h
    decreases v, 2, 0
  {
    var q := Lower(query);
    RawHitsExtendThePath(v, q, path, Width(v));
  }

  lemma {:induction false} RawHitsExtendThePath(v: Json, q: string, path: string, n: nat)
    requires path != "" && n <= Width(v)
    ensures forall h :: h in RawHits(v, q, path, n) ==> path <= h
    decreases v, 1, n
  {
    if n > 0 {
      RawHitsExtendThePath(v, q, path, n - 1);
      ChildHitsExtendThePath(v, q, path, n - 1);
      var earlier := RawHits(v, q, path, n - 1);
      var last := ChildHits(v, q, path, n - 1);
      assert RawHits(v, q, path, n) == earlier + last;
      assert forall h :: h in earlier + last ==> h in earlier || h in last;
    }
  }

  lemma {:induction false} ChildHitsExtendThePath(v: Json, q: string, path: string, i: nat)
    requires path != "" && i < Width(v)
    ensures forall h :: h in ChildHits(v, q, path, i) ==> path <= h
    decreases v, 0, 0
  {
    var c := Child(v, i);
    var p' := if v.Obj? then KeyPath(path, v.fields[i].0) else IndexPath(path, i);
    assert path <= p';
    var below := if IsContainer(c) then SearchSpec(c, q, p') else [];
    if IsContainer(c) {
      HitsExtendThePath(c, q, p');
    }
    assert forall h :: h in ChildHits(v, q, path, i) ==> h == p' || h in below;
    forall h | h == p' || h in below
      ensures path <= h
    {
      PrefixTransitive(path, p', h);
    }
  }

  lemma PrefixTransitive(a: string, b: string, c: string)
    requires a <= b && b <= c
    ensures a <= c
  {
    assert c[..|a|] == b[..|a|];
  }

  // ---------------------------------------------------------------------------------------
  // Locations and matches

  /** The path the search builds for child `i` of `v` below `path`. */
  function ChildPath(v: Json, path: string, i: nat): string
    requires i < Width(v)
  {
    if v.Obj? then KeyPath(path, v.fields[i].0) else IndexPath(path, i)
  }

  /** The node reached from `v` by following the child positions in `loc`, if each exists. */
  function Descend(v: Json, loc: seq<nat>): Option<Json>
    decreases |loc|
  {
    if loc == [] then Some(v)
    else if loc[0] < Width(v) then Descend(Child(v, loc[0]), loc[1..])
    else None
  }

  /** The path the search spells, starting from `path`, for the location `loc` below `v`. */
  function Spell(v: Json, path: string, loc: seq<nat>): string
    decreases |loc|
  {
    if loc == [] || loc[0] >= Width(v) then path
    else Spell(Child(v, loc[0]), ChildPath(v, path, loc[0]), loc[1..])
  }

  /** A match of the lowered query `q` at the location `loc` below `v`: its last step is a
      member whose key contains `q`, or it reaches a scalar whose rendering contains `q`. */
  predicate MatchAt(v: Json, q: string, loc: seq<nat>)
    decreases |loc|
  {
    && loc != []
    && loc[0] < Width(v)
    && if |loc| == 1 then
         || (v.Obj? && Contains(q, Lower(v.fields[loc[0]].0)))
         || (!IsContainer(Child(v, loc[0])) && ScalarMatches(Child(v, loc[0]), q))
       else MatchAt(Child(v, loc[0]), q, loc[1..])
  }

  /** `h` is the path, spelled from `path`, of some match of `q` below `v`. */
  ghost predicate IsMatchPath(v: Json, q: string, path: string, h: string)
  {
    exists loc :: MatchAt(v, q, loc) && Spell(v, path, loc) == h
  }

  /** A match lies at a location that exists. */
  lemma {:induction false} MatchIsReached(v: Json, q: string, loc: seq<nat>)
    requires MatchAt(v, q, loc)
    ensures Descend(v, loc).Some?
    decreases |loc|
  {
    if |loc| > 1 {
      MatchIsReached(Child(v, loc[0]), q, loc[1..]);
    } else {
      assert loc[1..] == [];
    }
  }

  /** `acc` holds the running concatenations of `parts`: `acc[k]` is `parts[0] + ... + parts[k - 1]`. */
  predicate Accumulates(acc: seq<seq<string>>, parts: seq<seq<string>>)
  {
    && |acc| == |parts| + 1
    && acc[0] == []
    && forall k :: 0 <= k < |parts| ==> acc[k + 1] == acc[k] + parts[k]
  }

  /** Whatever one part holds, the running concatenation holds from then on. */
  lemma {:induction false} AccumulatesEveryPart(acc: seq<seq<string>>, parts: seq<seq<string>>, i: nat, n: nat, h: string)
    requires Accumulates(acc, parts) && i < n <= |parts| && h in parts[i]
    ensures h in acc[n]
  {
    if i < n - 1 {
      AccumulatesEveryPart(acc, parts, i, n - 1, h);
    }
    assert acc[n] == acc[n - 1] + parts[n - 1];
  }

  /** Whatever the running concatenation holds comes from one of the parts. */
  lemma {:induction false} AccumulatesOnlyParts(acc: seq<seq<string>>, parts: seq<seq<string>>, n: nat, h: string) returns (i: nat)
    requires Accumulates(acc, parts) && n <= |parts| && h in acc[n]
    ensures i < n && h in parts[i]
  {
    assert n > 0;
    assert acc[n] == acc[n - 1] + parts[n - 1];
    if h in parts[n - 1] {
      i := n - 1;
    } else {
      i := AccumulatesOnlyParts(acc, parts, n - 1, h);
    }
  }

  /** The hits of each child of `v`, by position. */
  function HitLists(v: Json, q: string, path: string): (r: seq<seq<string>>)
    ensures |r| == Width(v)
  {
    seq(Width(v), i requires 0 <= i < Width(v) => ChildHits(v, q, path, i))
  }

  /** The raw hits after each number of children. */
  function HitPrefixes(v: Json, q: string, path: string): (r: seq<seq<string>>)
    ensures |r| == Width(v) + 1
  {
    seq(Width(v) + 1, k requires 0 <= k <= Width(v) => RawHits(v, q, path, k))
  }

  /** The raw hits are the children's hits, one child after the other. */
  lemma RawHitsAccumulate(v: Json, q: string, path: string)
    ensures Accumulates(HitPrefixes(v, q, path), HitLists(v, q, path))
  {
    forall k | 0 <= k < Width(v)
      ensures HitPrefixes(v, q, path)[k + 1] == HitPrefixes(v, q, path)[k] + HitLists(v, q, path)[k]
    {
      RawHitsStep(v, q, path, k);
    }
  }

  /** A hit of child `i` is among the raw hits. */
  lemma ChildHitIsRawHit(v: Json, q: string, path: string, i: nat, h: string)
    requires i < Width(v) && h in ChildHits(v, q, path, i)
    ensures h in RawHits(v, q, path, Width(v))
  {
    RawHitsAccumulate(v, q, path);
    AccumulatesEveryPart(HitPrefixes(v, q, path), HitLists(v, q, path), i, Width(v), h);
  }

  /** Every match is reported: the path of each location where the query matches a key or a
      scalar is among the hits. */
  lemma {:induction false} SearchFindsEveryMatch(v: Json, query: string, path: string, loc: seq<nat>)
    requires MatchAt(v, Lower(query), loc)
    ensures Spell(v, path, loc) in SearchSpec(v, query, path)
    decreases v
  {
    var q := Lower(query);
    var i := loc[0];
    var c := Child(v, i);
    var p' := ChildPath(v, path, i);
    var h := Spell(v, path, loc);
    assert h == Spell(c, p', loc[1..]);
    if |loc| == 1 {
      assert loc[1..] == [];
      assert h == p';
    } else {
      assert MatchAt(c, q, loc[1..]);
      assert IsContainer(c);
      LowerIdempotent(query);
      SearchFindsEveryMatch(c, q, p', loc[1..]);
      assert h in SearchSpec(c, q, p');
    }
    ChildHitIsRawHit(v, q, path, i, h);
  }

  /** Only matches are reported: every hit is the path of a location where the query
      matches a key or a scalar. */
  lemma {:induction false} SearchReportsOnlyMatches(v: Json, query: string, path: string, h: string)
    requires h in SearchSpec(v, query, path)
    ensures IsMatchPath(v, Lower(query), path, h)
    decreases v, 1
  {
    LowerIdempotent(query);
    var i := HitComesFromChild(v, Lower(query), path, h);
    ChildHitIsAMatch(v, Lower(query), path, i, h);
  }

  /** A hit of the whole search comes from one of the children. */
  lemma HitComesFromChild(v: Json, q: string, path: string, h: string) returns (i: nat)
    requires h in RawHits(v, q, path, Width(v))
    ensures i < Width(v) && h in ChildHits(v, q, path, i)
  {
    RawHitsAccumulate(v, q, path);
    i := AccumulatesOnlyParts(HitPrefixes(v, q, path), HitLists(v, q, path), Width(v), h);
  }

  /** A hit of child `i` is the path of a match below `v`. */
  lemma {:induction false} ChildHitIsAMatch(v: Json, q: string, path: string, i: nat, h: string)
    requires i < Width(v) && h in ChildHits(v, q, path, i) && Lower(q) == q
    ensures IsMatchPath(v, q, path, h)
    decreases v, 0
  {
    var c := Child(v, i);
    var p' := ChildPath(v, path, i);
    if IsContainer(c) && h in SearchSpec(c, q, p') {
      SearchReportsOnlyMatches(c, q, p', h);
      var rest :| MatchAt(c, q, rest) && Spell(c, p', rest) == h;
      DeepMatch(v, q, path, i, rest);
    } else {
      ShallowMatch(v, q, path, i, h);
    }
  }

  /** A match below child `i` is a match below `v`, one step further down. */
  lemma DeepMatch(v: Json, q: string, path: string, i: nat, rest: seq<nat>)
    requires i < Width(v) && MatchAt(Child(v, i), q, rest)
    ensures MatchAt(v, q, [i] + rest)
    ensures Spell(v, path, [i] + rest) == Spell(Child(v, i), ChildPath(v, path, i), rest)
  {
    assert ([i] + rest)[1..] == rest;
  }

  /** A hit of child `i` that does not come from searching inside it is the child's own path,
      reported for its key or its scalar value. */
  lemma ShallowMatch(v: Json, q: string, path: string, i: nat, h: string)
    requires i < Width(v) && h in ChildHits(v, q, path, i)
    requires !(IsContainer(Child(v, i)) && h in SearchSpec(Child(v, i), q, ChildPath(v, path, i)))
    ensures MatchAt(v, q, [i]) && Spell(v, path, [i]) == h
  {
    assert [i][1..] == [];
  }

  /** The hits are exactly the paths of the matches. */
  lemma SearchSpecIsTheMatches(v: Json, query: string, path: string)
    ensures forall h :: h in SearchSpec(v, query, path) <==> IsMatchPath(v, Lower(query), path, h)
  {
    forall h
      ensures h in SearchSpec(v, query, path) <==> IsMatchPath(v, Lower(query), path, h)
    {
      if h in SearchSpec(v, query, path) {
        SearchReportsOnlyMatches(v, query, path, h);
      }
      if IsMatchPath(v, Lower(query), path, h) {
        var loc :| MatchAt(v, Lower(query), loc) && Spell(v, path, loc) == h;
        SearchFindsEveryMatch(v, query, path, loc);
      }
    }
  }

  // ---------------------------------------------------------------------------------------
  // The method

  /** `search_json`: collects the hits child by child, recursing into containers, then
      removes repeated paths with a `seen` set. */
  method SearchJson(node: Json, query: string, path: string) returns (out: seq<string>)
    ensures out == SearchSpec(node, query, path)
    decreases node, 1
  {
    var hits: seq<string> := [];
    var q := Lower(query);
    var i := 0;
    while i < Width(node)
      invariant 0 <= i <= Width(node)
      invariant hits == RawHits(node, q, path, i)
    {
      hits := VisitChild(node, q, path, i, hits);
      RawHitsStep(node, q, path, i);
      i := i + 1;
    }
    out := Unique(hits);
  }

  /** One turn of the loop of `search_json`: appends to `hits` what child `i` of `node`
      contributes, in the order the loop body appends it. */
  method VisitChild(node: Json, q: string, path: string, i: nat, hits: seq<string>) returns (hits': seq<string>)
    requires i < Width(node)
    ensures hits' == hits + ChildHits(node, q, path, i)
    decreases node, 0
  {
    var v := Child(node, i);
    hits' := hits;
    if node.Obj? {
      var k := node.fields[i].0;
      var kPath := KeyPath(path, k);
      if Contains(q, Lower(k)) {
        hits' := hits' + [kPath];
      }
      if IsContainer(v) {
        var sub := SearchJson(v, q, kPath);
        hits' := hits' + sub;
      } else if ScalarMatches(v, q) {
        hits' := hits' + [kPath];
      }
    } else {
      var iPath := IndexPath(path, i);
      if IsContainer(v) {
        var sub := SearchJson(v, q, iPath);
        hits' := hits' + sub;
      } else if ScalarMatches(v, q) {
        hits' := hits' + [iPath];
      }
    }
  }

  /** The de-duplication loop at the end of `search_json`. */
  method Unique(hits: seq<string>) returns (out: seq<string>)
    ensures out == Dedup(hits)
  {
    var seen: set<string> := {};
    out := [];
    var j := 0;
    while j < |hits|
      invariant 0 <= j <= |hits|
      invariant out == Dedup(hits[..j])
      invariant forall h :: h in seen <==> h in out
    {
      var h := hits[j];
      assert hits[..j + 1] == hits[..j] + [h];
      if h !in seen {
        out := out + [h];
        seen := seen + {h};
      }
      j := j + 1;
    }
    assert hits[..|hits|] == hits;
  }
}
