/** `extract_by_path`: a dotted, bracketed path such as `a.b[2].c` is cut into key and index
    tokens, which then select a member or an item step by step. */
module PathExtract {
  import opened JsonValues
  import opened Text

  /** A path token: a key (`[^\[\]]+`) or a bracketed index (`\[\d+\]`, kept as its digits). */
  datatype Token = Key(name: string) | Index(digits: string)

  /** The failure `extract_by_path` raises as a `KeyError`, with its message. */
  datatype Result<T> = Ok(value: T) | Err(message: string)

  predicate IsBracket(c: char)
  {
    c == '[' || c == ']'
  }

  predicate WellFormedToken(t: Token)
  {
    match t
    case Key(k) => k != [] && NoneIn(k, IsBracket)
    case Index(d) => d != [] && AllDigits(d)
  }

  /** The end of the run of non-bracket characters that starts at `i`. */
  function SkipPlain(s: string, i: nat): (j: nat)
    requires i <= |s|
    decreases |s| - i
    ensures i <= j <= |s|
    ensures j < |s| ==> IsBracket(s[j])
  {
    if i == |s| || IsBracket(s[i]) then i else SkipPlain(s, i + 1)
  }

  lemma {:induction false} SkipPlainSkipsPlain(s: string, i: nat)
    requires i <= |s|
    decreases |s| - i
    ensures NoneIn(s[i..SkipPlain(s, i)], IsBracket)
  {
    if i < |s| && !IsBracket(s[i]) {
      SkipPlainSkipsPlain(s, i + 1);
      var j := SkipPlain(s, i);
      assert s[i..j] == [s[i]] + s[i + 1..j];
    }
  }

  /** `re.findall(r"[^\[\]]+|\[\d+\]", s[i:])`: a key is a maximal run of non-brackets; a `[`
      starts an index only when digits and a `]` follow; any other bracket is skipped. */
  function FindTokensFrom(s: string, i: nat): (toks: seq<Token>)
    requires i <= |s|
    decreases |s| - i
  {
    if i == |s| then []
    else if !IsBracket(s[i]) then
      var j := SkipPlain(s, i);
      [Key(s[i..j])] + FindTokensFrom(s, j)
    else if s[i] == '[' && i + 1 < SkipDigits(s, i + 1) < |s| && s[SkipDigits(s, i + 1)] == ']' then
      var j := SkipDigits(s, i + 1);
      [Index(s[i + 1..j])] + FindTokensFrom(s, j + 1)
    else FindTokensFrom(s, i + 1)
  }

  /** Every token found is a non-empty bracket-free key or a non-empty run of digits. */
  lemma {:induction false} FoundTokensAreWellFormed(s: string, i: nat)
    requires i <= |s|
    decreases |s| - i
    ensures forall t :: t in FindTokensFrom(s, i) ==> WellFormedToken(t)
  {
    if i < |s| {
      if !IsBracket(s[i]) {
        var j := SkipPlain(s, i);
        SkipPlainSkipsPlain(s, i);
        FoundTokensAreWellFormed(s, j);
      } else if s[i] == '[' && i + 1 < SkipDigits(s, i + 1) < |s| && s[SkipDigits(s, i + 1)] == ']' {
        var j := SkipDigits(s, i + 1);
        SkipDigitsSkipsDigits(s, i + 1);
        var digits := s[i + 1..j];
        assert forall k :: 0 <= k < |digits| ==> digits[k] == s[i + 1 + k];
        FoundTokensAreWellFormed(s, j + 1);
      } else {
        FoundTokensAreWellFormed(s, i + 1);
      }
    }
  }

  function FindTokens(s: string): seq<Token>
  {
    FindTokensFrom(s, 0)
  }

  /** The tokens of the dot-separated segments, in order. */
  function TokensOf(segments: seq<string>): (toks: seq<Token>)
  {
    if segments == [] then [] else FindTokens(segments[0]) + TokensOf(segments[1..])
  }

  lemma {:induction false} TokensOfAreWellFormed(segments: seq<string>)
    ensures forall t :: t in TokensOf(segments) ==> WellFormedToken(t)
  {
    if segments != [] {
      FoundTokensAreWellFormed(segments[0], 0);
      TokensOfAreWellFormed(segments[1..]);
    }
  }

  /** All the tokens of a path: split on `.`, then tokenise each segment. */
  function PathTokens(path: string): (toks: seq<Token>)
    ensures forall t :: t in toks ==> WellFormedToken(t)
  {
    TokensOfAreWellFormed(Split(path, IsDot));
    TokensOf(Split(path, IsDot))
  }

  /** Position of the first member named `k`, or the number of members when there is none. */
  function FindKey(fields: seq<(string, Json)>, k: string): (i: nat)
    ensures i <= |fields|
    ensures i < |fields| ==> fields[i].0 == k
    ensures forall j :: 0 <= j < i ==> fields[j].0 != k
  {
    if fields == [] then 0
    else if fields[0].0 == k then 0
    else 1 + FindKey(fields[1..], k)
  }

  /** One token applied to the current value: `cur[idx]` on an array in range, `cur[tok]` on
      an object that has the key, otherwise the `KeyError` the source raises. */
  function Step(cur: Json, tok: Token): (r: Result<Json>)
    requires WellFormedToken(tok)
    ensures r.Ok? ==> r.value < cur
    ensures tok.Key? && r.Err? ==> r.message == "Key not found: " + tok.name
    ensures tok.Index? && r.Err? ==> r.message == "Index out of range at [" + tok.digits + "]"
  {
    match tok
    case Index(d) =>
      var idx := DecimalValue(d);
      if !cur.Arr? || idx >= |cur.items| then Err("Index out of range at [" + d + "]")
      else Ok(Child(cur, idx))
    case Key(k) =>
      if !cur.Obj? || FindKey(cur.fields, k) == |cur.fields| then Err("Key not found: " + k)
      else Ok(Child(cur, FindKey(cur.fields, k)))
  }

  /** The tokens applied one after another, stopping at the first failure. */
  function Walk(cur: Json, toks: seq<Token>): Result<Json>
    requires forall t :: t in toks ==> WellFormedToken(t)
  {
    if toks == [] then Ok(cur)
    else
      match Step(cur, toks[0])
      case Err(m) => Err(m)
      case Ok(next) => Walk(next, toks[1..])
  }

  /** A walk selects a value below the start, or fails with the message of the step that
      failed. */
  lemma {:induction false} WalkOutcome(cur: Json, toks: seq<Token>)
    requires forall t :: t in toks ==> WellFormedToken(t)
    ensures var r := Walk(cur, toks);
      && (toks == [] ==> r == Ok(cur))
      && (r.Ok? && toks != [] ==> r.value < cur)
      && (r.Err? ==> "Key not found: " <= r.message || "Index out of range at [" <= r.message)
  {
    if toks != [] && Step(cur, toks[0]).Ok? {
      WalkOutcome(Step(cur, toks[0]).value, toks[1..]);
    }
  }

  /** Every token takes up at least one character, so there are never more tokens than
      characters. */
  lemma {:induction false} FewerTokensThanCharacters(s: string, i: nat)
    requires i <= |s|
    decreases |s| - i
    ensures |FindTokensFrom(s, i)| <= |s| - i
  {
    if i < |s| {
      if !IsBracket(s[i]) {
        FewerTokensThanCharacters(s, SkipPlain(s, i));
      } else if s[i] == '[' && i + 1 < SkipDigits(s, i + 1) < |s| && s[SkipDigits(s, i + 1)] == ']' {
        FewerTokensThanCharacters(s, SkipDigits(s, i + 1) + 1);
      } else {
        FewerTokensThanCharacters(s, i + 1);
      }
    }
  }

  /** What `extract_by_path(node, path)` returns, or the message of the `KeyError` it raises. */
  function Extract(node: Json, path: string): (r: Result<Json>)
    ensures path == "" ==> r == Ok(node)
  {
    if path == "" then Ok(node) else Walk(node, PathTokens(path))
  }

  // ---------------------------------------------------------------------------------------
  // The method

  /** `extract_by_path`: gathers the tokens segment by segment, then walks them. */
  method ExtractByPath(node: Json, path: string) returns (r: Result<Json>)
    ensures r == Extract(node, path)
  {
    if path == "" {
      return Ok(node);
    }
    var tokens := GatherTokens(path);
    r := WalkTokens(node, tokens);
  }

  /** The first loop: the tokens of every dot-separated segment, in order. */
  method GatherTokens(path: string) returns (tokens: seq<Token>)
    ensures tokens == PathTokens(path)
  {
    tokens := [];
    var segments := Split(path, IsDot);
    var j := 0;
    while j < |segments|
      invariant 0 <= j <= |segments|
      invariant tokens + TokensOf(segments[j..]) == TokensOf(segments)
    {
      assert segments[j..] == [segments[j]] + segments[j + 1..];
      var parts := FindTokens(segments[j]);
      tokens := tokens + parts;
      j := j + 1;
    }
  }

  /** The second loop: each token applied to the current value, raising at the first that
      does not apply. */
  method WalkTokens(node: Json, tokens: seq<Token>) returns (r: Result<Json>)
    requires forall t :: t in tokens ==> WellFormedToken(t)
    ensures r == Walk(node, tokens)
  {
    var cur := node;
    var i := 0;
    while i < |tokens|
      invariant 0 <= i <= |tokens|
      invariant Walk(node, tokens) == Walk(cur, tokens[i..])
      decreases |tokens| - i
    {
      var tok := tokens[i];
      assert tok in tokens;
      assert tokens[i..][1..] == tokens[i + 1..];
      match tok {
        case Index(d) =>
          var idx := DecimalValue(d);
          if !cur.Arr? || idx >= |cur.items| {
            return Err("Index out of range at [" + d + "]");
          }
          cur := cur.items[idx];
        case Key(k) =>
          if !cur.Obj? || FindKey(cur.fields, k) == |cur.fields| {
            return Err("Key not found: " + k);
          }
          cur := cur.fields[FindKey(cur.fields, k)].1;
      }
      i := i + 1;
    }
    return Ok(cur);
  }

  // ---------------------------------------------------------------------------------------
  // Properties

  /** The empty path is the only one that is not walked: walking the tokens of `""` selects
      the value itself, so every path means the walk of its tokens. */
  lemma {:induction false} ExtractWalksTheTokens(node: Json, path: string)
    ensures Extract(node, path) == Walk(node, PathTokens(path))
  {
    if path == "" {
      assert Split(path, IsDot) == [""];
      assert TokensOf([""]) == FindTokens("") + TokensOf([]);
    }
  }

  lemma {:induction false} TokensOfAppend(a: seq<string>, b: seq<string>)
    ensures TokensOf(a + b) == TokensOf(a) + TokensOf(b)
  {
    if a != [] {
      assert (a + b)[0] == a[0];
      assert (a + b)[1..] == a[1..] + b;
      TokensOfAppend(a[1..], b);
      calc {
        TokensOf(a + b);
        FindTokens(a[0]) + TokensOf(a[1..] + b);
        FindTokens(a[0]) + (TokensOf(a[1..]) + TokensOf(b));
        (FindTokens(a[0]) + TokensOf(a[1..])) + TokensOf(b);
        TokensOf(a) + TokensOf(b);
      }
    } else {
      assert a + b == b;
    }
  }

  /** Walking two token lists in a row is walking their concatenation. */
  lemma {:induction false} WalkAppend(cur: Json, a: seq<Token>, b: seq<Token>)
    requires forall t :: t in a ==> WellFormedToken(t)
    requires forall t :: t in b ==> WellFormedToken(t)
    ensures Walk(cur, a + b) == match Walk(cur, a) case Err(m) => Err(m) case Ok(x) => Walk(x, b)
  {
    if a == [] {
      assert a + b == b;
    } else {
      assert (a + b)[0] == a[0];
      assert (a + b)[1..] == a[1..] + b;
      assert a[0] in a;
      match Step(cur, a[0])
      case Err(m) =>
      case Ok(next) =>
        assert forall t :: t in a[1..] ==> t in a;
        WalkAppend(next, a[1..], b);
    }
  }

  /** The tokens of `p.q` are those of `p` followed by those of `q`. */
  lemma {:induction false} DottedPathTokens(p: string, q: string)
    ensures PathTokens(p + "." + q) == PathTokens(p) + PathTokens(q)
  {
    SplitAtSeparator(p, '.', q, IsDot);
    TokensOfAppend(Split(p, IsDot), Split(q, IsDot));
  }

  /** Extraction composes along a dot: extracting `p.q` is extracting `q` from what `p`
      selects, and fails with `p`'s error when `p` fails. */
  lemma {:induction false} ExtractComposes(node: Json, p: string, q: string)
    ensures Extract(node, p + "." + q)
      == match Extract(node, p) case Err(m) => Err(m) case Ok(x) => Extract(x, q)
  {
    ExtractWalksTheTokens(node, p + "." + q);
    ExtractWalksTheTokens(node, p);
    DottedPathTokens(p, q);
    WalkAppend(node, PathTokens(p), PathTokens(q));
    if Extract(node, p).Ok? {
      ExtractWalksTheTokens(Extract(node, p).value, q);
    }
  }

  /** A key without dots and brackets is one key token. */
  lemma {:induction false} PlainKeyTokens(k: string)
    requires k != [] && NoneIn(k, IsDot) && NoneIn(k, IsBracket)
    ensures PathTokens(k) == [Key(k)]
  {
    SplitPlain(k, IsDot);
    assert !IsBracket(k[0]);
    PlainRunReachesEnd(k, 0);
    assert k[0..|k|] == k;
    assert FindTokensFrom(k, |k|) == [];
    assert FindTokens(k) == [Key(k)];
    assert [k][1..] == [];
    assert TokensOf([k]) == FindTokens(k) + TokensOf([]);
  }

  lemma {:induction false} PlainRunReachesEnd(s: string, i: nat)
    requires i <= |s| && NoneIn(s, IsBracket)
    ensures SkipPlain(s, i) == |s|
    decreases |s| - i
  {
    if i < |s| {
      PlainRunReachesEnd(s, i + 1);
    }
  }

  /** A missing key fails with `Key not found: <key>`; a present one selects its member. */
  lemma {:induction false} KeyStep(node: Json, k: string)
    requires k != [] && NoneIn(k, IsDot) && NoneIn(k, IsBracket)
    ensures var i := if node.Obj? then FindKey(node.fields, k) else 0;
      Extract(node, k) == if node.Obj? && i < |node.fields| then Ok(node.fields[i].1) else Err("Key not found: " + k)
  {
    PlainKeyTokens(k);
    OneStepWalk(node, Key(k));
  }

  /** Walking a single token is taking that one step. */
  lemma OneStepWalk(node: Json, tok: Token)
    requires WellFormedToken(tok)
    ensures Walk(node, [tok]) == Step(node, tok)
  {
    assert [tok][1..] == [];
    assert [tok][0] == tok;
  }

  /** An index at or past the end, or applied to a non-array, fails with
      `Index out of range at [<digits>]`; otherwise it selects the item. */
  lemma {:induction false} IndexStep(node: Json, d: string)
    requires d != [] && AllDigits(d)
    ensures Extract(node, "[" + d + "]")
      == if node.Arr? && DecimalValue(d) < |node.items| then Ok(node.items[DecimalValue(d)])
         else Err("Index out of range at [" + d + "]")
  {
    IndexTokens("", d);
    assert "" + "[" + d + "]" == "[" + d + "]";
    assert PathTokens("") == [] by {
      assert Split("", IsDot) == [""];
      assert TokensOf([""]) == FindTokens("") + TokensOf([]);
    }
    assert PathTokens("[" + d + "]") == [Index(d)];
    assert Extract(node, "[" + d + "]") == Walk(node, [Index(d)]);
    OneStepWalk(node, Index(d));
  }

  /** Appending `[d]` to a path appends one index token. */
  lemma {:induction false} IndexTokens(p: string, d: string)
    requires d != [] && AllDigits(d)
    ensures PathTokens(p + "[" + d + "]") == PathTokens(p) + [Index(d)]
  {
    var b := "[" + d + "]";
    assert p + "[" + d + "]" == p + b;
    assert NoneIn(b, IsDot);
    SplitAppendPlain(p, b, IsDot);
    var parts := Split(p, IsDot);
    var n := |parts|;
    var init := parts[..n - 1];
    var last := parts[n - 1];
    assert parts == init + [last];
    assert Split(p + b, IsDot) == init + [last + b];
    TokensOfAppend(init, [last]);
    TokensOfAppend(init, [last + b]);
    TokensOfOne(last);
    TokensOfOne(last + b);
    IndexSuffixToken(last, d);
    TokensAssociate(TokensOf(init), FindTokens(last), [Index(d)]);
  }

  /** A trailing `[digits]` adds one index token to the tokens of a dot-free segment. */
  lemma IndexSuffixToken(a: string, d: string)
    requires d != [] && AllDigits(d)
    ensures FindTokens(a + ("[" + d + "]")) == FindTokens(a) + [Index(d)]
  {
    FindTokensBeforeBracket(a, "[" + d + "]", 0);
    TrailingIndexToken(a, d);
  }

  lemma TokensOfOne(x: string)
    ensures TokensOf([x]) == FindTokens(x)
  {
    assert [x][1..] == [];
  }

  /** In `a[d]`, tokenising from the `[` gives the one index token. */
  lemma {:induction false} TrailingIndexToken(a: string, d: string)
    requires d != [] && AllDigits(d)
    ensures FindTokensFrom(a + ("[" + d + "]"), |a|) == [Index(d)]
  {
    var s := a + ("[" + d + "]");
    var e := |a| + 1 + |d|;
    assert |s| == e + 1;
    assert s[|a|] == '[' && s[e] == ']';
    assert forall k :: |a| + 1 <= k < e ==> s[k] == d[k - |a| - 1];
    SkipDigitsIs(s, |a| + 1, e);
    assert s[|a| + 1..e] == d;
  }

  /** Tokenising stops cleanly at a `[`: what comes before it is tokenised on its own. */
  lemma {:induction false} FindTokensBeforeBracket(a: string, b: string, i: nat)
    requires i <= |a| && b != [] && b[0] == '['
    ensures FindTokensFrom(a + b, i) == FindTokensFrom(a, i) + FindTokensFrom(a + b, |a|)
    decreases |a| - i, 2
  {
    if i < |a| {
      assert (a + b)[i] == a[i];
      if !IsBracket(a[i]) {
        PlainRunBeforeBracket(a, b, i);
      } else {
        BracketBeforeBracket(a, b, i);
      }
    }
  }

  lemma {:induction false} PlainRunBeforeBracket(a: string, b: string, i: nat)
    requires i < |a| && b != [] && b[0] == '[' && !IsBracket(a[i])
    ensures FindTokensFrom(a + b, i) == FindTokensFrom(a, i) + FindTokensFrom(a + b, |a|)
    decreases |a| - i, 0
  {
    var s := a + b;
    assert s[i] == a[i];
    SkipPlainBeforeBracket(a, b, i);
    var j := SkipPlain(a, i);
    assert s[i..j] == a[i..j];
    FindTokensBeforeBracket(a, b, j);
  }

  lemma {:induction false} BracketBeforeBracket(a: string, b: string, i: nat)
    requires i < |a| && b != [] && b[0] == '[' && IsBracket(a[i])
    ensures FindTokensFrom(a + b, i) == FindTokensFrom(a, i) + FindTokensFrom(a + b, |a|)
    decreases |a| - i, 1
  {
    SkipDigitsBeforeBracket(a, b, i + 1);
    var j := SkipDigits(a, i + 1);
    if j < |a| && a[i] == '[' && i + 1 < j && a[j] == ']' {
      IndexBeforeBracket(a, b, i, j);
    } else {
      StrayBeforeBracket(a, b, i, j);
    }
  }

  lemma {:induction false} IndexBeforeBracket(a: string, b: string, i: nat, j: nat)
    requires i < |a| && b != [] && b[0] == '['
    requires j == SkipDigits(a, i + 1) == SkipDigits(a + b, i + 1)
    requires j < |a| && a[i] == '[' && i + 1 < j && a[j] == ']'
    ensures FindTokensFrom(a + b, i) == FindTokensFrom(a, i) + FindTokensFrom(a + b, |a|)
    decreases |a| - i, 0
  {
    var t := Index(a[i + 1..j]);
    IndexTokenInBoth(a, b, i, j);
    FindTokensBeforeBracket(a, b, j + 1);
    TokensAssociate([t], FindTokensFrom(a, j + 1), FindTokensFrom(a + b, |a|));
  }

  /** The same `[digits]` group, found in `a` and in `a + b`. */
  lemma IndexTokenInBoth(a: string, b: string, i: nat, j: nat)
    requires i < |a| && b != [] && b[0] == '['
    requires j == SkipDigits(a, i + 1) == SkipDigits(a + b, i + 1)
    requires j < |a| && a[i] == '[' && i + 1 < j && a[j] == ']'
    ensures FindTokensFrom(a + b, i) == [Index(a[i + 1..j])] + FindTokensFrom(a + b, j + 1)
    ensures FindTokensFrom(a, i) == [Index(a[i + 1..j])] + FindTokensFrom(a, j + 1)
  {
    var s := a + b;
    assert s[i] == a[i] && s[j] == a[j];
    assert s[i + 1..j] == a[i + 1..j];
    IndexTokenFound(s, i);
    IndexTokenFound(a, i);
  }

  lemma {:induction false} StrayBeforeBracket(a: string, b: string, i: nat, j: nat)
    requires i < |a| && b != [] && b[0] == '[' && IsBracket(a[i])
    requires j == SkipDigits(a, i + 1) == SkipDigits(a + b, i + 1)
    requires !(j < |a| && a[i] == '[' && i + 1 < j && a[j] == ']')
    ensures FindTokensFrom(a + b, i) == FindTokensFrom(a, i) + FindTokensFrom(a + b, |a|)
    decreases |a| - i, 0
  {
    var s := a + b;
    assert s[i] == a[i];
    assert j < |a| ==> s[j] == a[j];
    assert j == |a| ==> s[j] == '[';
    StrayBracketSkipped(s, i);
    StrayBracketSkipped(a, i);
    FindTokensBeforeBracket(a, b, i + 1);
  }

  lemma TokensAssociate(x: seq<Token>, y: seq<Token>, z: seq<Token>)
    ensures x + (y + z) == (x + y) + z
  {
  }

  /** A `[digits]` group at `i` is an index token. */
  lemma IndexTokenFound(s: string, i: nat)
    requires i < |s| && s[i] == '[' && i + 1 < SkipDigits(s, i + 1) < |s| && s[SkipDigits(s, i + 1)] == ']'
    ensures FindTokensFrom(s, i) == [Index(s[i + 1..SkipDigits(s, i + 1)])] + FindTokensFrom(s, SkipDigits(s, i + 1) + 1)
  {
  }

  /** A bracket that does not open a `[digits]` group is skipped. */
  lemma StrayBracketSkipped(s: string, i: nat)
    requires i < |s| && IsBracket(s[i])
    requires !(s[i] == '[' && i + 1 < SkipDigits(s, i + 1) < |s| && s[SkipDigits(s, i + 1)] == ']')
    ensures FindTokensFrom(s, i) == FindTokensFrom(s, i + 1)
  {
  }

  lemma {:induction false} SkipPlainBeforeBracket(a: string, b: string, i: nat)
    requires i <= |a| && b != [] && b[0] == '['
    ensures SkipPlain(a + b, i) == SkipPlain(a, i)
    decreases |a| - i
  {
    if i < |a| {
      assert (a + b)[i] == a[i];
      SkipPlainBeforeBracket(a, b, i + 1);
    } else {
      assert (a + b)[i] == '[';
    }
  }

  lemma {:induction false} SkipDigitsBeforeBracket(a: string, b: string, i: nat)
    requires i <= |a| && b != [] && b[0] == '['
    ensures SkipDigits(a + b, i) == SkipDigits(a, i)
    decreases |a| - i
  {
    if i < |a| {
      assert (a + b)[i] == a[i];
      SkipDigitsBeforeBracket(a, b, i + 1);
    } else {
      assert (a + b)[i] == '[';
    }
  }
}
