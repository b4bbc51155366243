/** The string operations the normaliser and the query engine use: Python's `str.strip`,
    ASCII `str.lower`, the `in` substring test, splitting on a separator, `str(n)` and
    `int(digits)`. Whitespace is the six ASCII whitespace characters. */
module Text {

  predicate IsSpace(c: char)
  {
    c == ' ' || c == '\t' || c == '\n' || c == '\r' || c == '\U{000B}' || c == '\U{000C}'
  }

  predicate IsDigit(c: char)
  {
    '0' <= c <= '9'
  }

  predicate AllSpace(s: string)
  {
    forall i :: 0 <= i < |s| ==> IsSpace(s[i])
  }

  predicate AllDigits(s: string)
  {
    forall i :: 0 <= i < |s| ==> IsDigit(s[i])
  }

  /** Every character of `s[i..j]` is whitespace. */
  predicate SpacesBetween(s: string, i: int, j: int)
    requires 0 <= i <= j <= |s|
  {
    forall k :: i <= k < j ==> IsSpace(s[k])
  }

  /** Every character of `s[i..j]` is a digit. */
  predicate DigitsBetween(s: string, i: int, j: int)
    requires 0 <= i <= j <= |s|
  {
    forall k :: i <= k < j ==> IsDigit(s[k])
  }

  /** The end of the whitespace run that starts at `i`: what a greedy `\s*` consumes. */
  function SkipSpaces(s: string, i: nat): (j: nat)
    requires i <= |s|
    decreases |s| - i
    ensures i <= j <= |s|
    ensures j < |s| ==> !IsSpace(s[j])
  {
    if i == |s| || !IsSpace(s[i]) then i else SkipSpaces(s, i + 1)
  }

  /** The end of the digit run that starts at `i`: what a greedy `\d*` consumes. */
  function SkipDigits(s: string, i: nat): (j: nat)
    requires i <= |s|
    decreases |s| - i
    ensures i <= j <= |s|
    ensures j < |s| ==> !IsDigit(s[j])
  {
    if i == |s| || !IsDigit(s[i]) then i else SkipDigits(s, i + 1)
  }

  /** What `SkipSpaces` skips is whitespace. */
  lemma {:induction false} SkipSpacesSkipsSpace(s: string, i: nat)
    requires i <= |s|
    decreases |s| - i
    ensures SpacesBetween(s, i, SkipSpaces(s, i))
  {
    if i < |s| && IsSpace(s[i]) {
      SkipSpacesSkipsSpace(s, i + 1);
    }
  }

  /** What `SkipDigits` skips is digits. */
  lemma {:induction false} SkipDigitsSkipsDigits(s: string, i: nat)
    requires i <= |s|
    decreases |s| - i
    ensures DigitsBetween(s, i, SkipDigits(s, i))
  {
    if i < |s| && IsDigit(s[i]) {
      SkipDigitsSkipsDigits(s, i + 1);
    }
  }

  /** What `BackSkipSpaces` skips is whitespace. */
  lemma {:induction false} BackSkipSpacesSkipsSpace(s: string, lo: nat, j: nat)
    requires lo <= j <= |s|
    decreases j
    ensures SpacesBetween(s, BackSkipSpaces(s, lo, j), j)
  {
    if j > lo && IsSpace(s[j - 1]) {
      BackSkipSpacesSkipsSpace(s, lo, j - 1);
    }
  }

  /** A whitespace run from `i` to a non-space at `j` is what `SkipSpaces` finds. */
  lemma {:induction false} SkipSpacesIs(s: string, i: nat, j: nat)
    requires i <= j <= |s| && SpacesBetween(s, i, j) && (j < |s| ==> !IsSpace(s[j]))
    ensures SkipSpaces(s, i) == j
    decreases j - i
  {
    if i < j {
      SkipSpacesIs(s, i + 1, j);
    }
  }

  /** A digit run from `i` to a non-digit at `j` is what `SkipDigits` finds. */
  lemma {:induction false} SkipDigitsIs(s: string, i: nat, j: nat)
    requires i <= j <= |s| && DigitsBetween(s, i, j) && (j < |s| ==> !IsDigit(s[j]))
    ensures SkipDigits(s, i) == j
    decreases j - i
  {
    if i < j {
      SkipDigitsIs(s, i + 1, j);
    }
  }

  /** The start of the whitespace run that ends at `j`, not going below `lo`. */
  function BackSkipSpaces(s: string, lo: nat, j: nat): (k: nat)
    requires lo <= j <= |s|
    decreases j
    ensures lo <= k <= j
    ensures lo < k ==> !IsSpace(s[k - 1])
  {
    if j == lo || !IsSpace(s[j - 1]) then j else BackSkipSpaces(s, lo, j - 1)
  }

  /** Python's `s.strip()`: the text between the leading and the trailing whitespace. */
  function Strip(s: string): (r: string)
    ensures SkipSpaces(s, 0) + |r| <= |s|
    ensures r == s[SkipSpaces(s, 0)..SkipSpaces(s, 0) + |r|]
    ensures r == [] || (!IsSpace(r[0]) && !IsSpace(r[|r| - 1]))
  {
    var a := SkipSpaces(s, 0);
    var b := BackSkipSpaces(s, a, |s|);
    s[a..b]
  }

  /** `Strip` removes only whitespace, from both ends. */
  lemma {:induction false} StripRemovesOnlySpace(s: string)
    ensures SpacesBetween(s, 0, SkipSpaces(s, 0))
    ensures SpacesBetween(s, SkipSpaces(s, 0) + |Strip(s)|, |s|)
  {
    var a := SkipSpaces(s, 0);
    SkipSpacesSkipsSpace(s, 0);
    BackSkipSpacesSkipsSpace(s, a, |s|);
  }

  /** Python's `not s.strip()`. */
  predicate IsBlank(s: string)
  {
    Strip(s) == []
  }

  lemma {:induction false} BlankIsAllSpace(s: string)
    ensures IsBlank(s) <==> AllSpace(s)
  {
    var r := Strip(s);
    var i := SkipSpaces(s, 0);
    StripRemovesOnlySpace(s);
    if r != [] {
      assert s[i] == r[0];
    }
  }

  lemma {:induction false} StripOfSpace(s: string)
    requires AllSpace(s)
    ensures Strip(s) == []
  {
    BlankIsAllSpace(s);
  }

  /** Python's `s[:n]`. */
  function Prefix(s: string, n: nat): (r: string)
    ensures |r| == if |s| <= n then |s| else n
    ensures r <= s
  {
    if |s| <= n then s else s[..n]
  }

  function LowerChar(c: char): char
  {
    if 'A' <= c <= 'Z' then (c as int + 32) as char else c
  }

  /** ASCII `str.lower()`. */
  function Lower(s: string): (r: string)
    ensures |r| == |s|
    ensures forall i :: 0 <= i < |s| ==> r[i] == LowerChar(s[i])
  {
    if s == [] then [] else [LowerChar(s[0])] + Lower(s[1..])
  }

  lemma {:induction false} LowerIdempotent(s: string)
    ensures Lower(Lower(s)) == Lower(s)
  {
    var l := Lower(s);
    assert forall i :: 0 <= i < |s| ==> Lower(l)[i] == LowerChar(LowerChar(s[i])) == l[i];
  }

  /** Python's `needle in hay`. */
  function Contains(needle: string, hay: string): bool
    decreases |hay|
  {
    if needle <= hay then true
    else if |hay| <= |needle| then false
    else Contains(needle, hay[1..])
  }

  /** `needle` occurs in `hay` at position `i`. */
  predicate WindowAt(needle: string, hay: string, i: int)
  {
    0 <= i <= |hay| - |needle| && hay[i..i + |needle|] == needle
  }

  lemma WindowOfTail(s: string, i: nat, m: nat)
    requires 0 < i && i + m <= |s|
    ensures s[i..i + m] == s[1..][i - 1..i - 1 + m]
  {
    var a := s[i..i + m];
    var b := s[1..][i - 1..i - 1 + m];
    assert forall k :: 0 <= k < m ==> a[k] == b[k];
  }

  /** `Contains` holds exactly when some window of `hay` equals `needle`. */
  lemma {:induction false} ContainsIsWindow(needle: string, hay: string)
    decreases |hay|
    ensures Contains(needle, hay) <==> exists i :: WindowAt(needle, hay, i)
  {
    if needle <= hay {
      assert WindowAt(needle, hay, 0);
    } else if |hay| <= |needle| {
      forall i | WindowAt(needle, hay, i)
        ensures false
      {
      }
    } else {
      ContainsIsWindow(needle, hay[1..]);
      forall i | 0 < i <= |hay| - |needle|
        ensures WindowAt(needle, hay, i) <==> WindowAt(needle, hay[1..], i - 1)
      {
        WindowOfTail(hay, i, |needle|);
      }
      assert hay[0..|needle|] == hay[..|needle|];
      assert !WindowAt(needle, hay, 0);
      if Contains(needle, hay) {
        var i :| WindowAt(needle, hay[1..], i);
        assert WindowAt(needle, hay, i + 1);
      }
    }
  }

  /** Python's `str(n)` for a natural number. */
  function DecimalString(n: nat): (r: string)
    ensures |r| >= 1 && AllDigits(r)
  {
    var d := ['0' + (n % 10) as char];
    if n < 10 then d else DecimalString(n / 10) + d
  }

  /** Python's `int(digits)` for a string of ASCII digits. */
  function DecimalValue(d: string): nat
    requires AllDigits(d)
  {
    if d == [] then 0
    else DecimalValue(d[..|d| - 1]) * 10 + (d[|d| - 1] - '0') as nat
  }

  lemma {:induction false} DecimalRoundTrip(n: nat)
    ensures DecimalValue(DecimalString(n)) == n
  {
    var s := DecimalString(n);
    if n >= 10 {
      DecimalRoundTrip(n / 10);
      assert s[..|s| - 1] == DecimalString(n / 10);
    }
  }

  /** Python's `s.split(sep)` generalised to a set of separator characters: the maximal
      separator-free pieces, always at least one. */
  function Split(s: string, sep: char -> bool): (parts: seq<string>)
    ensures |parts| >= 1
    ensures forall k, j :: 0 <= k < |parts| && 0 <= j < |parts[k]| ==> !sep(parts[k][j])
  {
    if s == [] then [""]
    else
      var rest := Split(s[1..], sep);
      if sep(s[0]) then [""] + rest
      else
        var first := [s[0]] + rest[0];
        assert forall j :: 1 <= j < |first| ==> first[j] == rest[0][j - 1];
        [first] + rest[1..]
  }

  predicate NoneIn(s: string, sep: char -> bool)
  {
    forall j :: 0 <= j < |s| ==> !sep(s[j])
  }

  /** Splitting at a separator character splits the pieces on either side of it. */
  lemma {:induction false} SplitAtSeparator(p: string, c: char, q: string, sep: char -> bool)
    requires sep(c)
    ensures Split(p + [c] + q, sep) == Split(p, sep) + Split(q, sep)
  {
    if p == [] {
      assert p + [c] + q == [c] + q;
      assert ([c] + q)[1..] == q;
    } else {
      assert (p + [c] + q)[1..] == p[1..] + [c] + q;
      SplitAtSeparator(p[1..], c, q, sep);
    }
  }

  /** Appending separator-free text extends the last piece. */
  lemma {:induction false} SplitAppendPlain(p: string, t: string, sep: char -> bool)
    requires NoneIn(t, sep)
    ensures var parts := Split(p, sep);
      Split(p + t, sep) == parts[..|parts| - 1] + [parts[|parts| - 1] + t]
  {
    if p == [] {
      assert p + t == t;
      SplitPlain(t, sep);
    } else {
      SplitAppendPlain(p[1..], t, sep);
      if sep(p[0]) {
        AppendAfterSeparator(p, t, sep);
      } else {
        AppendAfterPlain(p, t, sep);
      }
    }
  }

  /** `t` extends the last piece of `p`. */
  predicate ExtendsLastPiece(p: string, t: string, sep: char -> bool)
  {
    var parts := Split(p, sep);
    Split(p + t, sep) == parts[..|parts| - 1] + [parts[|parts| - 1] + t]
  }

  lemma SplitUnfolds(s: string, sep: char -> bool)
    requires s != []
    ensures sep(s[0]) ==> Split(s, sep) == [""] + Split(s[1..], sep)
    ensures !sep(s[0]) ==> Split(s, sep) == [[s[0]] + Split(s[1..], sep)[0]] + Split(s[1..], sep)[1..]
  {
  }

  lemma AppendAfterSeparator(p: string, t: string, sep: char -> bool)
    requires p != [] && sep(p[0]) && ExtendsLastPiece(p[1..], t, sep)
    ensures ExtendsLastPiece(p, t, sep)
  {
    var q := p + t;
    assert q[0] == p[0] && q[1..] == p[1..] + t;
    SplitUnfolds(p, sep);
    SplitUnfolds(q, sep);
    var rest := Split(p[1..], sep);
    var n := |rest|;
    assert ([""] + rest)[..n] == [""] + rest[..n - 1];
  }

  lemma AppendAfterPlain(p: string, t: string, sep: char -> bool)
    requires p != [] && !sep(p[0]) && ExtendsLastPiece(p[1..], t, sep)
    ensures ExtendsLastPiece(p, t, sep)
  {
    var q := p + t;
    assert q[0] == p[0] && q[1..] == p[1..] + t;
    SplitUnfolds(p, sep);
    SplitUnfolds(q, sep);
    var rest := Split(p[1..], sep);
    var n := |rest|;
    assert Split(q[1..], sep) == rest[..n - 1] + [rest[n - 1] + t];
    JoinFirstPiece(p[0], rest, t, Split(q[1..], sep));
  }

  /** The piece arithmetic behind `AppendAfterPlain`: a plain first character joins the first
      piece, before and after the last piece is extended. */
  lemma JoinFirstPiece(c: char, rest: seq<string>, t: string, r: seq<string>)
    requires |rest| >= 1 && r == rest[..|rest| - 1] + [rest[|rest| - 1] + t]
    ensures var parts := [[c] + rest[0]] + rest[1..];
      [[c] + r[0]] + r[1..] == parts[..|parts| - 1] + [parts[|parts| - 1] + t]
  {
    var n := |rest|;
    var head := [c] + rest[0];
    var parts := [head] + rest[1..];
    if n == 1 {
      assert r == [rest[0] + t];
      assert [c] + (rest[0] + t) == head + t;
    } else {
      assert r[0] == rest[0];
      assert r[1..] == rest[1..n - 1] + [rest[n - 1] + t];
      assert parts[..n - 1] == [head] + rest[1..n - 1];
    }
  }

  lemma {:induction false} SplitPlain(s: string, sep: char -> bool)
    requires NoneIn(s, sep)
    ensures Split(s, sep) == [s]
  {
    if s != [] {
      assert !sep(s[0]);
      assert NoneIn(s[1..], sep) by {
        forall j | 0 <= j < |s[1..]| ensures !sep(s[1..][j]) {
          assert s[1..][j] == s[j + 1];
        }
      }
      SplitPlain(s[1..], sep);
      assert [s[0]] + s[1..] == s;
    }
  }

  /** Concatenating the pieces gives back the text with its separators removed. */
  lemma {:induction false} SplitLosesOnlySeparators(s: string, sep: char -> bool)
    ensures Concat(Split(s, sep)) == Without(s, sep)
  {
    if s != [] {
      SplitLosesOnlySeparators(s[1..], sep);
      var rest := Split(s[1..], sep);
      if sep(s[0]) {
        ConcatCons("", rest);
      } else {
        ConcatCons(rest[0], rest[1..]);
        assert rest == [rest[0]] + rest[1..];
        ConcatCons([s[0]] + rest[0], rest[1..]);
      }
    }
  }

  function Concat(parts: seq<string>): string
  {
    if parts == [] then [] else parts[0] + Concat(parts[1..])
  }

  lemma ConcatCons(p: string, rest: seq<string>)
    ensures Concat([p] + rest) == p + Concat(rest)
  {
    assert ([p] + rest)[1..] == rest;
  }

  /** The characters of `s` that are not separators, in order. */
  function Without(s: string, sep: char -> bool): string
  {
    if s == [] then [] else (if sep(s[0]) then [] else [s[0]]) + Without(s[1..], sep)
  }

  predicate IsDot(c: char)
  {
    c == '.'
  }

  /** The line boundaries of `str.splitlines`. A `\r\n` pair counts as two boundaries here,
      which only adds an empty line between them. */
  predicate IsLineBreak(c: char)
  {
    || c == '\n' || c == '\r' || c == '\U{000B}' || c == '\U{000C}'
    || c == '\U{001C}' || c == '\U{001D}' || c == '\U{001E}'
    || c == '\U{0085}' || c == '\U{2028}' || c == '\U{2029}'
  }
}
