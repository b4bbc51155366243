/** `decode_escaped_json`: a fixed ladder of three parse attempts over successively cleaned
    text, each followed by a second parse of the result when the first yields a string. */
module EscapeDecoder {
  import opened JsonValues
  import opened Text
  import opened StrictParse

  // ---------------------------------------------------------------------------------------
  // Index prefix `^\s*\d+\s*:\s*`

  /** `s` begins with whitespace `s[..a]`, digits `s[a..b]`, whitespace `s[b..c]` and a colon
      at `c`: the pattern `\s*\d+\s*:` anchored at the start. */
  predicate IndexPrefixAt(s: string, a: int, b: int, c: int)
  {
    0 <= a < b <= c < |s| && SpacesBetween(s, 0, a) && DigitsBetween(s, a, b) && SpacesBetween(s, b, c)
    && s[c] == ':'
  }

  ghost predicate HasIndexPrefix(s: string)
  {
    exists a, b, c :: IndexPrefixAt(s, a, b, c)
  }

  /** `re.sub(r'^\s*\d+\s*:\s*', '', s)`. Each quantifier is greedy and its successor cannot
      match what it stops at, so the match is the maximal run of each class. */
  function StripIndexPrefix(s: string): (r: string)
    ensures |r| <= |s| && r == s[|s| - |r|..]
  {
    var a := SkipSpaces(s, 0);
    var b := SkipDigits(s, a);
    var c := SkipSpaces(s, b);
    if a < b && c < |s| && s[c] == ':' then s[SkipSpaces(s, c + 1)..] else s
  }

  /** The positions of an index prefix are determined by the text. */
  lemma {:induction false} IndexPrefixIsCanonical(s: string, a: int, b: int, c: int)
    requires IndexPrefixAt(s, a, b, c)
    ensures a == SkipSpaces(s, 0) && b == SkipDigits(s, a) && c == SkipSpaces(s, b)
  {
    assert IsDigit(s[a]);
    SkipSpacesIs(s, 0, a);
    assert IsSpace(s[b]) || s[b] == ':';
    SkipDigitsIs(s, a, b);
    SkipSpacesIs(s, b, c);
  }

  /** The index-prefix step changes the text exactly when it starts with an index prefix. */
  lemma {:induction false} StripIndexPrefixChangesOnlyPrefixed(s: string)
    ensures StripIndexPrefix(s) != s <==> HasIndexPrefix(s)
  {
    var a := SkipSpaces(s, 0);
    var b := SkipDigits(s, a);
    var c := SkipSpaces(s, b);
    if a < b && c < |s| && s[c] == ':' {
      SkipSpacesSkipsSpace(s, 0);
      SkipDigitsSkipsDigits(s, a);
      SkipSpacesSkipsSpace(s, b);
      assert IndexPrefixAt(s, a, b, c);
    } else if HasIndexPrefix(s) {
      var a', b', c' :| IndexPrefixAt(s, a', b', c');
      IndexPrefixIsCanonical(s, a', b', c');
    }
  }

  /** Whatever index prefix the text starts with, the step removes that one prefix together
      with the whitespace after its colon, and nothing more. */
  lemma {:induction false} StripIndexPrefixRemovesOnePrefix(s: string, a: int, b: int, c: int)
    requires IndexPrefixAt(s, a, b, c)
    ensures StripIndexPrefix(s) == s[SkipSpaces(s, c + 1)..]
  {
    IndexPrefixIsCanonical(s, a, b, c);
    assert SkipSpaces(s, SkipDigits(s, SkipSpaces(s, 0))) == c;
  }

  /** Only one index prefix goes: a second one behind it stays. */
  lemma StripsOnlyOneIndexPrefix()
    ensures StripIndexPrefix("0: 1: x") == "1: x"
  {
    var s := "0: 1: x";
    assert SkipSpaces(s, 0) == 0;
    assert SkipDigits(s, 0) == 1;
    assert SkipSpaces(s, 1) == 1;
    assert SkipSpaces(s, 2) == 3;
  }

  // ---------------------------------------------------------------------------------------
  // Quote layers

  predicate IsQuote(c: char)
  {
    c == '"' || c == '\''
  }

  /** `s[1:-1]` when `s` starts and ends with the same quote character (a lone quote
      character becomes the empty string); `s` otherwise. */
  function StripQuoteLayer(s: string): (r: string)
    ensures r == s
         || (|s| >= 2 && IsQuote(s[0]) && s == [s[0]] + r + [s[0]])
         || (|s| == 1 && IsQuote(s[0]) && r == [])
    ensures r != s <==> |s| > 0 && IsQuote(s[0]) && s[|s| - 1] == s[0]
  {
    if |s| > 0 && IsQuote(s[0]) && s[|s| - 1] == s[0] then
      if |s| >= 2 then s[1..|s| - 1] else ""
    else s
  }

  /** Index of the first line feed at or after `i`, or the length: where `.*` must stop. */
  function LineEnd(s: string, i: nat): (n: nat)
    requires i <= |s|
    decreases |s| - i
    ensures i <= n <= |s|
    ensures forall k :: i <= k < n ==> s[k] != '\n'
    ensures n < |s| ==> s[n] == '\n'
  {
    if i == |s| || s[i] == '\n' then i else LineEnd(s, i + 1)
  }

  /** `s[e..]` is `""` followed by whitespace only: what `""\s*$` accepts there. */
  predicate ClosesAt(s: string, e: int)
  {
    0 <= e && e + 2 <= |s| && s[e] == '"' && s[e + 1] == '"' && SpacesBetween(s, e + 2, |s|)
  }

  /** The greedy `(.*)` backs off from `lim` towards `lo` until `""\s*$` matches. */
  function LastCloser(s: string, lo: nat, lim: nat): (e: Option<nat>)
    requires lo <= lim <= |s|
    decreases lim
    ensures e.Some? ==> lo <= e.value <= lim && ClosesAt(s, e.value)
    ensures e.Some? ==> forall k :: e.value < k <= lim ==> !ClosesAt(s, k)
    ensures e.None? ==> forall k :: lo <= k <= lim ==> !ClosesAt(s, k)
  {
    if ClosesAt(s, lim) then Some(lim)
    else if lim == lo then None
    else LastCloser(s, lo, lim - 1)
  }

  /** `re.sub(r'^\s*""(.*)""\s*$', r'"\1"', s)`. */
  function CollapseDoubledQuotes(s: string): (r: string)
    ensures r == s || (2 <= |r| < |s| && r[0] == '"' && r[|r| - 1] == '"')
  {
    var w := SkipSpaces(s, 0);
    if w + 2 <= |s| && s[w] == '"' && s[w + 1] == '"' then
      match LastCloser(s, w + 2, LineEnd(s, w + 2))
      case Some(e) => "\"" + s[w + 2..e] + "\""
      case None => s
    else s
  }

  /** `s` is whitespace `s[..i]`, `""`, a line-feed-free body `s[i + 2..j - 2]`, `""`, and
      whitespace `s[j..]`: the text the doubled-quote pattern matches. */
  predicate DoubledQuotesAt(s: string, i: int, j: int)
  {
    0 <= i && i + 4 <= j <= |s| && SpacesBetween(s, 0, i) && s[i] == '"' && s[i + 1] == '"'
    && (forall k :: i + 2 <= k < j - 2 ==> s[k] != '\n')
    && s[j - 2] == '"' && s[j - 1] == '"' && SpacesBetween(s, j, |s|)
  }

  /** When the step's own scan finds the pattern, the text has the doubled-quote shape. */
  lemma {:induction false} ScannedDoubledQuotes(s: string)
    ensures CollapseDoubledQuotes(s) != s ==> exists i, j :: DoubledQuotesAt(s, i, j)
  {
    var w := SkipSpaces(s, 0);
    if w + 2 <= |s| && s[w] == '"' && s[w + 1] == '"' {
      var found := LastCloser(s, w + 2, LineEnd(s, w + 2));
      if found.Some? {
        SkipSpacesSkipsSpace(s, 0);
        assert DoubledQuotesAt(s, w, found.value + 2);
      }
    }
  }

  /** Whenever the text has the doubled-quote shape, the step keeps the longest body it can,
      wrapped in one pair of double quotes. */
  lemma {:induction false} DoubledQuotesCollapse(s: string, i: int, j: int)
    requires DoubledQuotesAt(s, i, j)
    ensures |CollapseDoubledQuotes(s)| < |s|
    ensures exists j' :: j <= j' <= |s| && DoubledQuotesAt(s, i, j') && CollapseDoubledQuotes(s) == "\"" + s[i + 2..j' - 2] + "\""
  {
    SkipSpacesIs(s, 0, i);
    var lim := LineEnd(s, i + 2);
    assert ClosesAt(s, j - 2);
    var e := LastCloser(s, i + 2, lim).value;
    assert DoubledQuotesAt(s, i, e + 2);
  }

  /** The doubled-quote step changes the text exactly when the pattern matches. */
  lemma {:induction false} CollapseDoubledQuotesSpec(s: string)
    ensures CollapseDoubledQuotes(s) != s <==> exists i, j :: DoubledQuotesAt(s, i, j)
  {
    ScannedDoubledQuotes(s);
    if exists i, j :: DoubledQuotesAt(s, i, j) {
      var i, j :| DoubledQuotesAt(s, i, j);
      DoubledQuotesCollapse(s, i, j);
    }
  }

  /** Whenever the pattern matches, the step keeps the longest body it can, wrapped in one
      pair of double quotes. */
  lemma {:induction false} CollapseKeepsLongestBody(s: string)
    ensures forall i, j :: DoubledQuotesAt(s, i, j) ==>
      exists j' :: j <= j' <= |s| && DoubledQuotesAt(s, i, j') && CollapseDoubledQuotes(s) == "\"" + s[i + 2..j' - 2] + "\""
  {
    forall i, j | DoubledQuotesAt(s, i, j)
      ensures exists j' :: j <= j' <= |s| && DoubledQuotesAt(s, i, j') && CollapseDoubledQuotes(s) == "\"" + s[i + 2..j' - 2] + "\""
    {
      DoubledQuotesCollapse(s, i, j);
    }
  }

  // ---------------------------------------------------------------------------------------
  // The ladder

  /** The text of the first attempt: index prefix removed, trimmed, one quote layer removed. */
  function FirstCandidate(s: string): (r: string)
    ensures var t := Strip(StripIndexPrefix(s));
      || r == t
      || (|t| >= 2 && IsQuote(t[0]) && t == [t[0]] + r + [t[0]])
      || (|t| == 1 && IsQuote(t[0]) && r == [])
  {
    StripQuoteLayer(Strip(StripIndexPrefix(s)))
  }

  /** The text of the second attempt: trimmed, one more quote layer removed, doubled quotes
      collapsed. */
  function SecondCandidate(first: string): (r: string)
    ensures var u := StripQuoteLayer(Strip(first));
      r == u || (2 <= |r| < |u| && r[0] == '"' && r[|r| - 1] == '"')
  {
    CollapseDoubledQuotes(StripQuoteLayer(Strip(first)))
  }

  /** The first attempt parses the text left once its one index prefix is removed and the
      rest trimmed, with at most one quote layer taken off. */
  lemma {:induction false} FirstCandidateOfPrefixedText(s: string, a: int, b: int, c: int)
    requires IndexPrefixAt(s, a, b, c)
    ensures FirstCandidate(s) == StripQuoteLayer(Strip(s[SkipSpaces(s, c + 1)..]))
  {
    StripIndexPrefixRemovesOnePrefix(s, a, b, c);
  }

  /** Without an index prefix, the first attempt parses the trimmed text with at most one
      quote layer taken off. */
  lemma {:induction false} FirstCandidateOfPlainText(s: string)
    requires !HasIndexPrefix(s)
    ensures FirstCandidate(s) == StripQuoteLayer(Strip(s))
  {
    StripIndexPrefixChangesOnlyPrefixed(s);
  }

  /** Only the outer quote pair goes: quotes inside it reach the first attempt intact. */
  lemma FirstCandidateKeepsInnerQuotes(s: string, q: char, inner: string)
    requires IsQuote(q) && Strip(StripIndexPrefix(s)) == [q] + inner + [q]
    ensures FirstCandidate(s) == inner
  {
    var t := Strip(StripIndexPrefix(s));
    assert t[0] == q && t[|t| - 1] == q;
    assert t[1..|t| - 1] == inner;
  }

  /** The texts the ladder parses, in order; the third exists only when the
      unicode-escape codec accepts the second. */
  function Attempts(lib: Foreign, s: string): (texts: seq<string>)
    ensures |texts| == 2 || |texts| == 3
  {
    var first := FirstCandidate(s);
    var second := SecondCandidate(first);
    match lib.unicodeEscape(second)
    case Some(third) => [first, second, third]
    case None => [first, second]
  }

  predicate ParsesToNone(lib: Foreign, text: string)
  {
    TryLoadsOnce(lib, text).0 == Null
  }

  /** Index of the first text whose parse is not `None`, or the length when there is none. */
  function FirstParsed(lib: Foreign, texts: seq<string>): (i: nat)
    ensures i <= |texts|
    ensures forall j :: 0 <= j < i ==> ParsesToNone(lib, texts[j])
    ensures i < |texts| ==> !ParsesToNone(lib, texts[i])
  {
    if texts == [] then 0
    else if !ParsesToNone(lib, texts[0]) then 0
    else 1 + FirstParsed(lib, texts[1..])
  }

  /** The double decode after a successful parse: a string whose content parses again to a
      value other than `None` is replaced by that value; anything else is kept. */
  function DoubleDecode(lib: Foreign, obj: Json): (r: Json)
    ensures obj != Null ==> r != Null
    ensures r != obj ==> obj.Str? && lib.loads(obj.text) == Parsed(r)
    ensures obj.Str? && !ParsesToNone(lib, obj.text) ==> r == TryLoadsOnce(lib, obj.text).0
  {
    if obj.Str? then
      var inner := TryLoadsOnce(lib, obj.text).0;
      if inner != Null then inner else obj
    else obj
  }

  /** `decode_escaped_json`. `Raised` when the unicode-escape codec raises, which nothing in
      the source catches. A value other than `None` always comes with an empty message. */
  function DecodeEscaped(lib: Foreign, s: string): (r: Outcome<(Json, string)>)
    ensures r.Returned? ==> (r.value.0 != Null <==> r.value.1 == "")
    ensures r.Raised? ==> r.reason == "UnicodeDecodeError"
  {
    var s1 := FirstCandidate(s);
    var (obj, err) := TryLoadsOnce(lib, s1);
    if obj != Null then Returned((DoubleDecode(lib, obj), ""))
    else
      var s2 := SecondCandidate(s1);
      var (obj2, err2) := TryLoadsOnce(lib, s2);
      if obj2 != Null then Returned((DoubleDecode(lib, obj2), ""))
      else
        match lib.unicodeEscape(s2)
        case None => Raised("UnicodeDecodeError")
        case Some(s3) =>
          var (obj3, err3) := TryLoadsOnce(lib, s3);
          if obj3 != Null then Returned((DoubleDecode(lib, obj3), ""))
          else Returned((Null, "Failed to decode escaped JSON. Attempts: " + err + " | " + err2 + " | " + err3))
  }

  /** The decoder tries its candidate texts in order and settles on the first whose parse is
      not `None`, applying the double decode to it; it raises only when the first two fail and
      the codec rejects the second; when all three fail it returns `None` with the three
      parse messages in order. */
  lemma {:induction false} DecodeEscapedFollowsLadder(lib: Foreign, s: string)
    ensures var r := DecodeEscaped(lib, s);
      var texts := Attempts(lib, s);
      var i := FirstParsed(lib, texts);
      && (r.Raised? <==> |texts| == 2 && i == 2)
      && (i < |texts| ==> r == Returned((DoubleDecode(lib, TryLoadsOnce(lib, texts[i]).0), "")))
      && (r.Returned? && i == |texts| ==>
            && |texts| == 3 && r.value.0 == Null
            && r.value.1 == "Failed to decode escaped JSON. Attempts: " + TryLoadsOnce(lib, texts[0]).1
                            + " | " + TryLoadsOnce(lib, texts[1]).1 + " | " + TryLoadsOnce(lib, texts[2]).1)
  {
    var texts := Attempts(lib, s);
    var s1 := FirstCandidate(s);
    var s2 := SecondCandidate(s1);
    assert texts[0] == s1 && texts[1] == s2;
    if !ParsesToNone(lib, s1) {
      assert FirstParsed(lib, texts) == 0;
    } else if !ParsesToNone(lib, s2) {
      assert FirstParsed(lib, texts[1..]) == 0;
      assert FirstParsed(lib, texts) == 1;
    } else if lib.unicodeEscape(s2).Some? {
      var s3 := lib.unicodeEscape(s2).value;
      assert texts == [s1, s2, s3];
      assert texts[1..][1..] == [s3];
      if !ParsesToNone(lib, s3) {
        assert FirstParsed(lib, texts[1..][1..]) == 0;
      } else {
        assert FirstParsed(lib, texts[1..][1..][1..]) == 0;
      }
    } else {
      assert texts[1..][1..] == [];
    }
  }

  /** Text already shaped like a JSON object or array goes to the first parse attempt as it
      is, only trimmed: neither an index prefix nor a quote layer is removed from it. */
  lemma {:induction false} BracketedTextIsTriedFirst(s: string)
    requires LooksLikeJson(s)
    ensures FirstCandidate(s) == Strip(s)
  {
    BracketedTextHasNoIndexPrefix(s);
    var t := Strip(s);
    assert !IsQuote(t[0]);
  }

  /** The index-prefix step leaves bracketed text alone: a bracket is not a digit. */
  lemma {:induction false} BracketedTextHasNoIndexPrefix(s: string)
    requires LooksLikeJson(s)
    ensures StripIndexPrefix(s) == s
  {
    LooksLikeJsonStartsWithBracket(s);
    var a := SkipSpaces(s, 0);
    assert !IsDigit(s[a]);
    assert SkipDigits(s, a) == a;
  }
}
