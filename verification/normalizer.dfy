/** `normalize_input_to_json`: the driver that turns pasted text into one primary value, the
    list of values recovered segment by segment, and the list of error messages. */
module Normalizer {
  import opened JsonValues
  import opened Text
  import opened StrictParse
  import opened EscapeDecoder
  import opened Segmenter

  /** What one segment contributes: nothing (blank), a recovered value, or an error line. */
  datatype Verdict = Skip | Entry(value: Json) | Failure(message: string)

  /** The two lists the loop accumulates. */
  datatype Collected = Collected(entries: seq<Json>, errors: seq<string>)

  /** The triple the function returns: `single_json`, `list_entries`, `errors`. */
  datatype Normalized = Normalized(primary: Option<Json>, entries: seq<Json>, errors: seq<string>)

  /** The loop body for one segment: a shape-checked direct parse, falling back to the escape
      decoder, whose codec may raise. */
  function ProcessSegment(lib: Foreign, raw: string): (r: Outcome<Verdict>)
    ensures r == Returned(Skip) <==> IsBlank(raw)
    ensures r.Returned? && r.value.Entry? ==> r.value.value != Null
    ensures r.Returned? && r.value.Failure? ==> "Segment failed: " <= r.value.message
    ensures r.Raised? ==> r.reason == "UnicodeDecodeError"
  {
    var seg := Strip(raw);
    if seg == [] then Returned(Skip)
    else
      var first := if LooksLikeJson(seg) then TryLoadsOnce(lib, seg) else (Null, "");
      var attempt: Outcome<(Json, string)> := if first.0 != Null then Returned(first) else DecodeEscaped(lib, seg);
      match attempt
      case Raised(reason) => Raised(reason)
      case Returned((obj, err)) =>
        if obj != Null then Returned(Entry(obj))
        else Returned(Failure("Segment failed: " + err + "\nSegment: " + Prefix(seg, 200)))
  }

  function Apply(acc: Collected, v: Verdict): Collected
  {
    match v
    case Skip => acc
    case Entry(x) => Collected(acc.entries + [x], acc.errors)
    case Failure(m) => Collected(acc.entries, acc.errors + [m])
  }

  /** The verdict of every segment, in order. */
  function Verdicts(lib: Foreign, segs: seq<string>): (vs: seq<Outcome<Verdict>>)
    ensures |vs| == |segs|
  {
    if segs == [] then [] else [ProcessSegment(lib, segs[0])] + Verdicts(lib, segs[1..])
  }

  lemma {:induction false} VerdictAt(lib: Foreign, segs: seq<string>, i: nat)
    requires i < |segs|
    ensures Verdicts(lib, segs)[i] == ProcessSegment(lib, segs[i])
  {
    if i > 0 {
      VerdictAt(lib, segs[1..], i - 1);
    }
  }

  /** The verdicts skip exactly the blank segments, and each of them is sound. */
  predicate Judges(vs: seq<Outcome<Verdict>>, segs: seq<string>)
  {
    && |vs| == |segs|
    && (forall i :: 0 <= i < |vs| ==> (vs[i] == Returned(Skip) <==> IsBlank(segs[i])))
    && (forall i :: 0 <= i < |vs| ==> Sound(vs[i]))
  }

  /** The accumulated lists after the first `n` verdicts, or the exception that stopped the
      loop. */
  function CollectUpTo(vs: seq<Outcome<Verdict>>, n: nat, start: Collected): Outcome<Collected>
    requires n <= |vs|
  {
    if n == 0 then Returned(start)
    else
      match CollectUpTo(vs, n - 1, start)
      case Raised(reason) => Raised(reason)
      case Returned(acc) => FileVerdict(acc, vs[n - 1])
  }

  /** The loop's state after one more verdict: the lists with it filed, or its exception. */
  function FileVerdict(acc: Collected, v: Outcome<Verdict>): Outcome<Collected>
  {
    if v.Raised? then Raised(v.reason) else Returned(Apply(acc, v.value))
  }

  /** How many of the first `n` verdicts are something other than a skip. */
  function Settled(vs: seq<Outcome<Verdict>>, n: nat): nat
    requires n <= |vs|
  {
    if n == 0 then 0 else Settled(vs, n - 1) + (if vs[n - 1] == Returned(Skip) then 0 else 1)
  }

  /** What a verdict can be: a value that is not null, an error line reporting the failed
      segment, or the codec's exception. */
  predicate Sound(v: Outcome<Verdict>)
  {
    && (v.Returned? && v.value.Entry? ==> v.value.value != Null)
    && (v.Returned? && v.value.Failure? ==> "Segment failed: " <= v.value.message)
    && (v.Raised? ==> v.reason == "UnicodeDecodeError")
  }

  /** How many of the first `n` segments are not blank. */
  function NonBlankCount(segs: seq<string>, n: nat): nat
    requires n <= |segs|
  {
    if n == 0 then 0 else NonBlankCount(segs, n - 1) + (if IsBlank(segs[n - 1]) then 0 else 1)
  }

  /** `single_json` from the recovered values: nothing, the only one, or all of them as an
      array. */
  function Primary(entries: seq<Json>): (r: Option<Json>)
    ensures r.None? <==> entries == []
    ensures |entries| == 1 ==> r == Some(entries[0])
    ensures |entries| > 1 ==> r.Some? && r.value.Arr? && r.value.items == entries
  {
    if entries == [] then None
    else if |entries| == 1 then Some(entries[0])
    else Some(Arr(entries))
  }

  /** The error list the segment loop starts from: one `Parse error` line when the text is
      bracket-shaped but the strict parse gives nothing. */
  function HeadErrors(lib: Foreign, text: string): (errs: seq<string>)
    ensures |errs| <= 1
  {
    if LooksLikeJson(text) then ["Parse error: " + TryLoadsOnce(lib, text).1] else []
  }

  /** What `normalize_input_to_json` returns, or the exception it lets escape. */
  function NormalizeSpec(lib: Foreign, text: string): Outcome<Normalized>
  {
    if LooksLikeJson(text) && TryLoadsOnce(lib, text).0 != Null then
      Returned(Normalized(Some(TryLoadsOnce(lib, text).0), [], []))
    else
      var segs := ExplodeLines(lib, text);
      Finish(CollectUpTo(Verdicts(lib, segs), |segs|, Collected([], HeadErrors(lib, text))))
  }

  /** The triple built from the two lists the loop collected, or the exception it stopped at. */
  function Finish(c: Outcome<Collected>): Outcome<Normalized>
  {
    match c
    case Raised(reason) => Raised(reason)
    case Returned(c) => Returned(Normalized(Primary(c.entries), c.entries, c.errors))
  }

  /** Once a segment raises, the loop never resumes. */
  lemma {:induction false} RaisedStaysRaised(vs: seq<Outcome<Verdict>>, m: nat, n: nat, start: Collected)
    requires m <= n <= |vs|
    requires CollectUpTo(vs, m, start).Raised?
    ensures CollectUpTo(vs, n, start) == CollectUpTo(vs, m, start)
    decreases n - m
  {
    if m < n {
      RaisedStaysRaised(vs, m, n - 1, start);
    }
  }

  /** Filing verdict `i` takes the loop one segment further; an exception there is the
      loop's result. */
  lemma FiledOneMore(vs: seq<Outcome<Verdict>>, i: nat, start: Collected, acc: Collected, filed: Outcome<Collected>)
    requires i < |vs| && CollectUpTo(vs, i, start) == Returned(acc) && filed == FileVerdict(acc, vs[i])
    ensures CollectUpTo(vs, i + 1, start) == filed
    ensures filed.Raised? ==> CollectUpTo(vs, |vs|, start) == filed
  {
    if filed.Raised? {
      RaisedStaysRaised(vs, i + 1, |vs|, start);
    }
  }

  /** Exactly the blank segments are skipped. */
  lemma {:induction false} SettledAreNonBlank(vs: seq<Outcome<Verdict>>, segs: seq<string>, n: nat)
    requires Judges(vs, segs) && n <= |segs|
    ensures Settled(vs, n) == NonBlankCount(segs, n)
  {
    if n > 0 {
      SettledAreNonBlank(vs, segs, n - 1);
    }
  }

  /** The loop body's verdicts judge the segments. */
  lemma VerdictsJudge(lib: Foreign, segs: seq<string>)
    ensures Judges(Verdicts(lib, segs), segs)
  {
    forall i | 0 <= i < |segs|
      ensures Verdicts(lib, segs)[i] == ProcessSegment(lib, segs[i])
    {
      VerdictAt(lib, segs, i);
    }
  }

  /** The body of the segment loop: strip, parse directly when bracket-shaped, fall back to
      the escape decoder, and sort the outcome into a value or an error line. */
  method ClassifySegment(lib: Foreign, raw: string) returns (r: Outcome<Verdict>)
    ensures r == ProcessSegment(lib, raw)
  {
    var seg := Strip(raw);
    if seg == [] {
      return Returned(Skip);
    }
    var obj := Null;
    var err := "";
    if LooksLikeJson(seg) {
      var loaded := TryLoadsOnce(lib, seg);
      obj, err := loaded.0, loaded.1;
    }
    if obj == Null {
      var decoded := DecodeEscaped(lib, seg);
      if decoded.Raised? {
        return Raised(decoded.reason);
      }
      obj, err := decoded.value.0, decoded.value.1;
    }
    if obj != Null {
      return Returned(Entry(obj));
    }
    return Returned(Failure("Segment failed: " + err + "\nSegment: " + Prefix(seg, 200)));
  }

  /** One pass of the segment loop: classify segment `i` and file what it gives in the list
      it belongs to, or report the codec's exception. */
  method FileSegment(lib: Foreign, segments: seq<string>, i: nat, entries: seq<Json>, errors: seq<string>)
    returns (r: Outcome<Collected>)
    requires i < |segments|
    ensures r == FileVerdict(Collected(entries, errors), Verdicts(lib, segments)[i])
  {
    var verdict := ClassifySegment(lib, segments[i]);
    VerdictAt(lib, segments, i);
    if verdict.Raised? {
      return Raised(verdict.reason);
    }
    match verdict.value
    case Skip =>
      return Returned(Collected(entries, errors));
    case Entry(obj) =>
      return Returned(Collected(entries + [obj], errors));
    case Failure(message) =>
      return Returned(Collected(entries, errors + [message]));
  }

  /** The segment loop of `normalize_input_to_json`: appends one value or one error line per
      non-blank segment to the lists it starts from, and stops at the codec's exception. */
  method CollectSegments(lib: Foreign, segments: seq<string>, head: seq<string>) returns (r: Outcome<Collected>)
    ensures r == CollectUpTo(Verdicts(lib, segments), |segments|, Collected([], head))
  {
    ghost var vs := Verdicts(lib, segments);
    var entries: seq<Json> := [];
    var errors := head;
    var i := 0;
    while i < |segments|
      invariant 0 <= i <= |segments|
      invariant CollectUpTo(vs, i, Collected([], head)) == Returned(Collected(entries, errors))
    {
      var filed := FileSegment(lib, segments, i, entries, errors);
      FiledOneMore(vs, i, Collected([], head), Collected(entries, errors), filed);
      if filed.Raised? {
        return filed;
      }
      entries, errors := filed.value.entries, filed.value.errors;
      i := i + 1;
    }
    return Returned(Collected(entries, errors));
  }

  /** `normalize_input_to_json`. */
  method Normalize(lib: Foreign, text: string) returns (r: Outcome<Normalized>)
    ensures r == NormalizeSpec(lib, text)
  {
    var errors: seq<string> := [];
    if LooksLikeJson(text) {
      var loaded := TryLoadsOnce(lib, text);
      if loaded.0 != Null {
        return Returned(Normalized(Some(loaded.0), [], errors));
      }
      errors := errors + ["Parse error: " + loaded.1];
    }
    assert errors == HeadErrors(lib, text);
    var segments := ExplodeLines(lib, text);
    var collected := CollectSegments(lib, segments, errors);
    match collected
    case Raised(reason) =>
      return Raised(reason);
    case Returned(c) =>
      return Returned(Normalized(Primary(c.entries), c.entries, c.errors));
  }

  /** Each verdict other than a skip adds exactly one line to one of the two lists, after
      what was there before. */
  lemma {:induction false} CollectAccountsForEverySegment(vs: seq<Outcome<Verdict>>, n: nat, start: Collected)
    requires n <= |vs|
    ensures var r := CollectUpTo(vs, n, start);
      r.Returned? ==>
        && start.entries <= r.value.entries && start.errors <= r.value.errors
        && |r.value.entries| + |r.value.errors| == |start.entries| + |start.errors| + Settled(vs, n)
  {
    if n > 0 {
      CollectAccountsForEverySegment(vs, n - 1, start);
      var prev := CollectUpTo(vs, n - 1, start);
      if prev.Returned? && vs[n - 1].Returned? {
        var acc := prev.value;
        var next := Apply(acc, vs[n - 1].value);
        assert acc.entries <= next.entries && acc.errors <= next.errors;
      }
    }
  }

  /** What the loop adds when every verdict is sound: values that are never null and error
      lines that each report a failed segment; the only exception that stops it is the
      codec's. */
  lemma {:induction false} CollectAddsOnlyValuesAndFailures(vs: seq<Outcome<Verdict>>, n: nat, start: Collected)
    requires n <= |vs|
    requires forall i :: 0 <= i < n ==> Sound(vs[i])
    ensures var r := CollectUpTo(vs, n, start);
      && (r.Raised? ==> r.reason == "UnicodeDecodeError")
      && (r.Returned? ==>
            && (forall j :: |start.entries| <= j < |r.value.entries| ==> r.value.entries[j] != Null)
            && (forall j :: |start.errors| <= j < |r.value.errors| ==> "Segment failed: " <= r.value.errors[j]))
  {
    if n > 0 {
      CollectAddsOnlyValuesAndFailures(vs, n - 1, start);
      CollectAccountsForEverySegment(vs, n - 1, start);
      var prev := CollectUpTo(vs, n - 1, start);
      var v := vs[n - 1];
      assert Sound(v);
      if prev.Returned? && v.Returned? {
        var acc := prev.value;
        var next := Apply(acc, v.value);
        assert CollectUpTo(vs, n, start) == Returned(next);
        match v.value
        case Skip =>
        case Entry(x) =>
          assert next.entries == acc.entries + [x];
        case Failure(m) =>
          assert next.errors == acc.errors + [m];
      }
    }
  }

  /** A bracket-shaped text with a non-null strict parse is returned at once, with nothing
      else recovered and no errors. */
  lemma CleanJsonReturnsAtOnce(lib: Foreign, text: string)
    requires LooksLikeJson(text) && TryLoadsOnce(lib, text).0 != Null
    ensures NormalizeSpec(lib, text) == Returned(Normalized(Some(lib.loads(text).value), [], []))
  {
  }

  /** The outcome of the segment path when the loop starts from the error lines `head` and
      meets `count` non-blank segments: only the codec's exception escapes; otherwise `head`
      comes first and is followed by one line per failed segment, one list or the other grows
      by one per non-blank segment, and the primary value is absent exactly when nothing was
      recovered, the only value when one was, the array of all of them otherwise, and never
      null. */
  predicate WellShaped(r: Outcome<Normalized>, head: seq<string>, count: nat)
  {
    && (r.Raised? ==> r.reason == "UnicodeDecodeError")
    && (r.Returned? ==>
          && head <= r.value.errors
          && |r.value.entries| + |r.value.errors| == |head| + count
          && (forall j :: |head| <= j < |r.value.errors| ==> "Segment failed: " <= r.value.errors[j])
          && (r.value.primary == None <==> r.value.entries == [])
          && (|r.value.entries| == 1 ==> r.value.primary == Some(r.value.entries[0]))
          && (|r.value.entries| > 1 ==> r.value.primary == Some(Arr(r.value.entries)))
          && r.value.primary != Some(Null))
  }

  /** Whatever the verdicts, as long as they judge the segments, the loop and the final
      packing give a well-shaped outcome. */
  lemma {:induction false} FinishedShape(vs: seq<Outcome<Verdict>>, segs: seq<string>, head: seq<string>)
    requires Judges(vs, segs)
    ensures WellShaped(Finish(CollectUpTo(vs, |vs|, Collected([], head))), head, NonBlankCount(segs, |segs|))
  {
    CollectAccountsForEverySegment(vs, |vs|, Collected([], head));
    SettledAreNonBlank(vs, segs, |segs|);
    CollectAddsOnlyValuesAndFailures(vs, |vs|, Collected([], head));
  }

  /** The shape of a normal return: at most one `Parse error` line ahead of one line per
      non-blank segment; the primary value is absent exactly when nothing was recovered, the
      only value when one was, and the array of all of them otherwise; it is never null. */
  lemma {:induction false} NormalizeOutcome(lib: Foreign, text: string)
    requires !(LooksLikeJson(text) && TryLoadsOnce(lib, text).0 != Null)
    ensures var r := NormalizeSpec(lib, text);
      var segs := ExplodeLines(lib, text);
      var head := HeadErrors(lib, text);
      && (r.Raised? ==> r.reason == "UnicodeDecodeError")
      && (r.Returned? ==>
            && head <= r.value.errors
            && |r.value.entries| + |r.value.errors| == |head| + NonBlankCount(segs, |segs|)
            && (forall j :: |head| <= j < |r.value.errors| ==> "Segment failed: " <= r.value.errors[j])
            && (r.value.primary == None <==> r.value.entries == [])
            && (|r.value.entries| == 1 ==> r.value.primary == Some(r.value.entries[0]))
            && (|r.value.entries| > 1 ==> r.value.primary == Some(Arr(r.value.entries)))
            && r.value.primary != Some(Null))
  {
    var segs := ExplodeLines(lib, text);
    VerdictsJudge(lib, segs);
    FinishedShape(Verdicts(lib, segs), segs, HeadErrors(lib, text));
  }

  /** A non-blank segment is counted. */
  lemma {:induction false} NonBlankSegmentCounts(segs: seq<string>, n: nat, j: nat)
    requires j < n <= |segs| && !IsBlank(segs[j])
    ensures NonBlankCount(segs, n) >= 1
  {
    if j < n - 1 {
      NonBlankSegmentCounts(segs, n - 1, j);
    }
  }

  /** Input that is not all whitespace never comes back empty-handed: when no value was
      recovered, at least one error line says why. */
  lemma {:induction false} NoValueMeansAnError(lib: Foreign, text: string)
    requires !AllSpace(text)
    ensures var r := NormalizeSpec(lib, text);
      r.Returned? && r.value.primary == None ==> r.value.errors != []
  {
    if !(LooksLikeJson(text) && TryLoadsOnce(lib, text).0 != Null) {
      var segs := ExplodeLines(lib, text);
      NormalizeOutcome(lib, text);
      ExplodedTextKeepsANonBlankSegment(lib, text);
      var j :| 0 <= j < |segs| && !IsBlank(segs[j]);
      NonBlankSegmentCounts(segs, |segs|, j);
    }
  }

  /** Empty or whitespace-only input gives no value, no entries and no errors. */
  lemma {:induction false} BlankInputGivesNothing(lib: Foreign, text: string)
    requires AllSpace(text)
    ensures NormalizeSpec(lib, text) == Returned(Normalized(None, [], []))
  {
    StripOfSpace(text);
    BlankTextIsOneEmptySegment(lib, text);
    assert !LooksLikeJson(text);
    assert HeadErrors(lib, text) == [];
    assert IsBlank("");
    assert ProcessSegment(lib, "") == Returned(Skip);
    VerdictAt(lib, [""], 0);
    assert CollectUpTo(Verdicts(lib, [""]), 1, Collected([], [])) == Returned(Collected([], []));
  }
}
