/** The primitive parser wrapper and the bracket-shape test. */
module StrictParse {
  import opened JsonValues
  import opened Text

  /** `try_json_loads_once`: the parsed value and "", or `None` and the exception's message.
      Python's `None` is `Null` here, so a text that parses to JSON null is reported exactly
      like a text that fails to parse. */
  function TryLoadsOnce(lib: Foreign, text: string): (r: (Json, string))
    ensures r.0 != Null ==> lib.loads(text) == Parsed(r.0) && r.1 == ""
    ensures r.0 == Null <==> lib.loads(text) in {Parsed(Null)} || lib.loads(text).Rejected?
    ensures lib.loads(text).Rejected? ==> r.1 == lib.loads(text).message
  {
    match lib.loads(text)
    case Parsed(v) => (v, "")
    case Rejected(msg) => (Null, msg)
  }

  /** `looks_like_json`: the stripped text starts with `{` and ends with `}`, or starts with
      `[` and ends with `]`. */
  predicate LooksLikeJson(s: string)
    ensures LooksLikeJson(s) ==> |Strip(s)| >= 2
  {
    var t := Strip(s);
    |t| > 0 && ((t[0] == '{' && t[|t| - 1] == '}') || (t[0] == '[' && t[|t| - 1] == ']'))
  }

  /** A text that looks like JSON is not blank, and its first non-blank character is a bracket. */
  lemma LooksLikeJsonStartsWithBracket(s: string)
    requires LooksLikeJson(s)
    ensures !IsBlank(s)
    ensures var a := SkipSpaces(s, 0); a < |s| && (s[a] == '{' || s[a] == '[')
  {
    var t := Strip(s);
    var a := SkipSpaces(s, 0);
    assert s[a] == t[0];
  }
}
