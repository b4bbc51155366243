/** The paths `search_json` reports are paths `extract_by_path` understands: when no key
    contains a dot or a bracket, every hit found below a path leads back to a value. */
module HitPaths {
  import opened JsonValues
  import opened Text
  import opened Search
  import opened PathExtract

  /** A key the path syntax can spell: not empty, no `.`, no `[` or `]`. */
  predicate SafeKey(k: string)
  {
    k != [] && NoneIn(k, IsDot) && NoneIn(k, IsBracket)
  }

  /** Every object below `v` (itself included) has distinct keys, all of them safe. */
  predicate SafeKeys(v: Json)
    decreases v
  {
    && (v.Obj? ==> forall i, j :: 0 <= i < j < |v.fields| ==> v.fields[i].0 != v.fields[j].0)
    && (v.Obj? ==> forall i :: 0 <= i < |v.fields| ==> SafeKey(v.fields[i].0))
    && forall i :: 0 <= i < Width(v) ==> SafeKeys(Child(v, i))
  }

  /** With distinct keys, looking a member's key up finds that member. */
  lemma FindKeyOfDistinct(fields: seq<(string, Json)>, i: nat)
    requires i < |fields|
    requires forall a, b :: 0 <= a < b < |fields| ==> fields[a].0 != fields[b].0
    ensures FindKey(fields, fields[i].0) == i
  {
  }

  /** The path `search_json` builds for a child selects that child under `extract_by_path`. */
  lemma {:induction false} ChildPathResolves(root: Json, v: Json, path: string, i: nat)
    requires SafeKeys(v) && i < Width(v)
    requires Extract(root, path) == Ok(v)
    ensures v.Obj? ==> Extract(root, KeyPath(path, v.fields[i].0)) == Ok(Child(v, i))
    ensures v.Arr? ==> Extract(root, IndexPath(path, i)) == Ok(Child(v, i))
  {
    if v.Obj? {
      var k := v.fields[i].0;
      assert SafeKey(k);
      FindKeyOfDistinct(v.fields, i);
      KeyStep(v, k);
      if path == "" {
        assert v == root;
      } else {
        ExtractComposes(root, path, k);
      }
    } else if v.Arr? {
      var ds := DecimalString(i);
      DecimalRoundTrip(i);
      IndexTokens(path, ds);
      ExtractWalksTheTokens(root, IndexPath(path, i));
      ExtractWalksTheTokens(root, path);
      assert forall t :: t in [Index(ds)] ==> WellFormedToken(t);
      WalkAppend(root, PathTokens(path), [Index(ds)]);
      OneStepWalk(v, Index(ds));
    }
  }

  /** Every hit of a search started at a path that selects `v` can be extracted from the root. */
  lemma {:induction false} HitsResolve(root: Json, v: Json, query: string, path: string)
    requires SafeKeys(v) && Extract(root, path) == Ok(v)
    ensures forall h :: h in SearchSpec(v, query, path) ==> Extract(root, h).Ok?
  {
    forall h | h in SearchSpec(v, query, path)
      ensures Extract(root, h).Ok?
    {
      HitResolves(root, v, query, path, h);
    }
  }

  lemma {:induction false} HitResolves(root: Json, v: Json, query: string, path: string, h: string)
    requires SafeKeys(v) && Extract(root, path) == Ok(v) && h in SearchSpec(v, query, path)
    ensures Extract(root, h).Ok?
    decreases v, 2, 0
  {
    RawHitResolves(root, v, Lower(query), path, Width(v), h);
  }

  lemma {:induction false} RawHitResolves(root: Json, v: Json, q: string, path: string, n: nat, h: string)
    requires SafeKeys(v) && Extract(root, path) == Ok(v) && 0 < n <= Width(v) && h in RawHits(v, q, path, n)
    ensures Extract(root, h).Ok?
    decreases v, 1, n
  {
    HitComesFromAChild(v, q, path, n, h);
    if n > 1 && h in RawHits(v, q, path, n - 1) {
      RawHitResolves(root, v, q, path, n - 1, h);
    } else {
      ChildHitResolves(root, v, q, path, n - 1, h);
    }
  }

  /** A hit among the first `n` children's comes from the first `n - 1` or from the last. */
  lemma HitComesFromAChild(v: Json, q: string, path: string, n: nat, h: string)
    requires 0 < n <= Width(v) && h in RawHits(v, q, path, n)
    ensures (n > 1 && h in RawHits(v, q, path, n - 1)) || h in ChildHits(v, q, path, n - 1)
  {
    RawHitsStep(v, q, path, n - 1);
  }

  lemma {:induction false} ChildHitResolves(root: Json, v: Json, q: string, path: string, i: nat, h: string)
    requires SafeKeys(v) && Extract(root, path) == Ok(v) && i < Width(v) && h in ChildHits(v, q, path, i)
    ensures Extract(root, h).Ok?
    decreases v, 0, 0
  {
    var c := Child(v, i);
    var p' := if v.Obj? then KeyPath(path, v.fields[i].0) else IndexPath(path, i);
    ChildPathResolves(root, v, path, i);
    if h != p' {
      assert IsContainer(c) && h in SearchSpec(c, q, p');
      HitResolves(root, c, q, p', h);
    }
  }

  /** With safe keys, the path the search spells for a location extracts the node there. */
  lemma {:induction false} SpellResolves(root: Json, v: Json, path: string, loc: seq<nat>)
    requires SafeKeys(v) && Extract(root, path) == Ok(v) && Descend(v, loc).Some?
    ensures Extract(root, Spell(v, path, loc)) == Ok(Descend(v, loc).value)
    decreases |loc|
  {
    if loc != [] {
      var i := loc[0];
      ChildPathResolves(root, v, path, i);
      SpellResolves(root, Child(v, i), ChildPath(v, path, i), loc[1..]);
    }
  }

  /** `h` is the path of a match of `q` below `root`, and extraction selects the node there. */
  ghost predicate ExtractsAMatch(root: Json, q: string, h: string)
  {
    exists loc :: && MatchAt(root, q, loc) && Spell(root, "", loc) == h
                  && Descend(root, loc).Some? && Extract(root, h) == Ok(Descend(root, loc).value)
  }

  /** One reported path: it extracts the node at a match. */
  lemma HitExtractsAMatch(root: Json, query: string, h: string)
    requires SafeKeys(root) && h in SearchSpec(root, query, "")
    ensures ExtractsAMatch(root, Lower(query), h)
  {
    SearchReportsOnlyMatches(root, query, "", h);
    var loc :| MatchAt(root, Lower(query), loc) && Spell(root, "", loc) == h;
    MatchIsReached(root, Lower(query), loc);
    SpellResolves(root, root, "", loc);
  }

  /** One match: its path is reported and extracts the node at the match. */
  lemma MatchIsReportedAndExtracts(root: Json, query: string, loc: seq<nat>)
    requires SafeKeys(root) && MatchAt(root, Lower(query), loc)
    ensures Spell(root, "", loc) in SearchSpec(root, query, "")
    ensures Descend(root, loc).Some? && Extract(root, Spell(root, "", loc)) == Ok(Descend(root, loc).value)
  {
    SearchFindsEveryMatch(root, query, "", loc);
    MatchIsReached(root, Lower(query), loc);
    SpellResolves(root, root, "", loc);
  }

  /** The whole search from the root: every reported path extracts, and it extracts the node
      at a match of the query (a scalar that matches, or a member whose key matches). Every
      match is reported. */
  lemma SearchHitsExtract(root: Json, query: string)
    requires SafeKeys(root)
    ensures forall h :: h in SearchSpec(root, query, "") ==> Extract(root, h).Ok?
    ensures forall h :: h in SearchSpec(root, query, "") ==> ExtractsAMatch(root, Lower(query), h)
    ensures forall loc :: MatchAt(root, Lower(query), loc) ==>
      && Spell(root, "", loc) in SearchSpec(root, query, "")
      && Descend(root, loc).Some? && Extract(root, Spell(root, "", loc)) == Ok(Descend(root, loc).value)
  {
    forall h | h in SearchSpec(root, query, "")
      ensures ExtractsAMatch(root, Lower(query), h) && Extract(root, h).Ok?
    {
      HitExtractsAMatch(root, query, h);
    }
    forall loc | MatchAt(root, Lower(query), loc)
      ensures && Spell(root, "", loc) in SearchSpec(root, query, "")
              && Descend(root, loc).Some? && Extract(root, Spell(root, "", loc)) == Ok(Descend(root, loc).value)
    {
      MatchIsReportedAndExtracts(root, query, loc);
    }
  }
}
