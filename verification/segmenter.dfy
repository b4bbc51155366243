/** `explode_lines`: cutting the pasted text into candidate JSON segments, first by lines and
    then, for a single line, at the `}\s*,\s*{` boundaries between concatenated objects. */
module Segmenter {
  import opened JsonValues
  import opened Text
  import opened StrictParse

  /** `t[i..e]` is one match of `}\s*,\s*{`, with its comma at `k`. */
  predicate BoundaryShape(t: string, i: int, k: int, e: int)
  {
    && 0 <= i < k < e - 1 < e <= |t|
    && t[i] == '}' && SpacesBetween(t, i + 1, k)
    && t[k] == ',' && SpacesBetween(t, k + 1, e - 1)
    && t[e - 1] == '{'
  }

  /** The end of the `}\s*,\s*{` match that starts at `i`, if one starts there. */
  function BoundaryEnd(t: string, i: nat): (e: Option<nat>)
    requires i <= |t|
    ensures e.Some? ==> i + 3 <= e.value <= |t| && t[i] == '}' && t[e.value - 1] == '{'
  {
    if i < |t| && t[i] == '}' then
      var k := SkipSpaces(t, i + 1);
      if k < |t| && t[k] == ',' then
        var m := SkipSpaces(t, k + 1);
        if m < |t| && t[m] == '{' then Some(m + 1) else None
      else None
    else None
  }

  /** What the scan finds is a match of the pattern. */
  lemma {:induction false} BoundaryEndIsMatch(t: string, i: nat)
    requires i <= |t| && BoundaryEnd(t, i).Some?
    ensures BoundaryShape(t, i, SkipSpaces(t, i + 1), BoundaryEnd(t, i).value)
  {
    SkipSpacesSkipsSpace(t, i + 1);
    SkipSpacesSkipsSpace(t, SkipSpaces(t, i + 1) + 1);
  }

  /** Every match of the pattern is found by the scan, with the same end. */
  lemma {:induction false} BoundaryEndFindsEveryMatch(t: string, i: int, k: int, e: int)
    requires BoundaryShape(t, i, k, e)
    ensures BoundaryEnd(t, i) == Some(e)
  {
    SkipSpacesIs(t, i + 1, k);
    SkipSpacesIs(t, k + 1, e - 1);
  }

  /** `re.split(r'}\s*,\s*{', t)` from the current piece start `start`, scanning at `i`. */
  function SplitFrom(t: string, start: nat, i: nat): (parts: seq<string>)
    requires start <= i <= |t|
    decreases |t| - i
    ensures |parts| >= 1
  {
    if i == |t| then [t[start..]]
    else
      match BoundaryEnd(t, i)
      case Some(e) => [t[start..i]] + SplitFrom(t, e, e)
      case None => SplitFrom(t, start, i + 1)
  }

  /** The first piece runs from `start` up to the first boundary at or after `i`, or to the
      end of the text when there is none. */
  lemma {:induction false} SplitFromFirstPiece(t: string, start: nat, i: nat)
    requires start <= i <= |t|
    decreases |t| - i
    ensures var parts := SplitFrom(t, start, i);
      && start + |parts[0]| <= |t| && parts[0] == t[start..start + |parts[0]|]
      && (forall j :: i <= j < start + |parts[0]| ==> BoundaryEnd(t, j).None?)
      && (|parts| == 1 ==> parts[0] == t[start..])
      && (|parts| > 1 ==> i <= start + |parts[0]| && BoundaryEnd(t, start + |parts[0]|).Some?)
  {
    if i < |t| && BoundaryEnd(t, i).None? {
      SplitFromFirstPiece(t, start, i + 1);
    }
  }

  /** The last of `parts` is a suffix of `t` starting at or after `start`; when there are
      several pieces it directly follows a `{`. */
  predicate LastPieceEndsText(t: string, start: nat, parts: seq<string>)
  {
    && |parts| >= 1
    && |parts[|parts| - 1]| <= |t| - start
    && parts[|parts| - 1] == t[|t| - |parts[|parts| - 1]|..]
    && (|parts| > 1 ==> |parts[|parts| - 1]| < |t| - start && t[|t| - |parts[|parts| - 1]| - 1] == '{')
  }

  /** The last of `parts` follows the last boundary found at or after `i`: when there are
      several pieces it starts where such a boundary ends, and no boundary starts inside it. */
  predicate LastPieceFollowsLastBoundary(t: string, i: nat, parts: seq<string>)
  {
    && |parts| >= 1
    && |parts[|parts| - 1]| <= |t|
    && (|parts| > 1 ==> exists k :: i <= k < |t| && BoundaryEnd(t, k) == Some(|t| - |parts[|parts| - 1]|))
    && (forall j :: i <= j < |t| && |t| - |parts[|parts| - 1]| <= j ==> BoundaryEnd(t, j).None?)
  }

  /** The last piece is a suffix of the text; after a split it follows the `{` that ends a
      boundary. */
  lemma {:induction false} SplitFromLastPiece(t: string, start: nat, i: nat)
    requires start <= i <= |t|
    decreases |t| - i
    ensures LastPieceEndsText(t, start, SplitFrom(t, start, i))
  {
    if i < |t| {
      match BoundaryEnd(t, i)
      case Some(e) =>
        SplitFromLastPiece(t, e, e);
        if |SplitFrom(t, e, e)| == 1 {
          SplitFromFirstPiece(t, e, e);
        }
        BoundaryKeepsLastPiece(t, start, i, e);
        LastPieceThroughBoundary(t, start, i, e, SplitFrom(t, start, i), SplitFrom(t, e, e));
      case None =>
        SplitFromLastPiece(t, start, i + 1);
    }
  }

  /** Across a boundary the last piece is the one the rest of the scan ends with. */
  lemma LastPieceThroughBoundary(t: string, start: nat, i: nat, e: nat, parts: seq<string>, rest: seq<string>)
    requires start <= i < |t| && BoundaryEnd(t, i) == Some(e)
    requires LastPieceEndsText(t, e, rest)
    requires |rest| == 1 ==> rest[0] == t[e..]
    requires |parts| == |rest| + 1 && parts[|parts| - 1] == rest[|rest| - 1]
    ensures LastPieceEndsText(t, start, parts)
  {
    var last := rest[|rest| - 1];
    if |rest| == 1 {
      assert |last| == |t| - e;
      assert t[e - 1] == '{';
    }
  }

  /** After a split the last piece begins at the end of the last boundary: no boundary starts
      inside it. */
  lemma {:induction false} SplitFromLastBoundary(t: string, start: nat, i: nat)
    requires start <= i <= |t|
    decreases |t| - i
    ensures LastPieceFollowsLastBoundary(t, i, SplitFrom(t, start, i))
  {
    if i < |t| {
      match BoundaryEnd(t, i)
      case Some(e) =>
        SplitFromLastBoundary(t, e, e);
        BoundaryKeepsLastPiece(t, start, i, e);
        if |SplitFrom(t, e, e)| == 1 {
          SplitFromFirstPiece(t, e, e);
          LastBoundaryIsThisOne(t, start, i, e);
        } else {
          LastBoundaryIsLater(t, i, e, SplitFrom(t, start, i), SplitFrom(t, e, e));
        }
      case None =>
        SplitFromLastBoundary(t, start, i + 1);
        LastBoundaryNotHere(t, i, SplitFrom(t, start, i));
    }
  }

  /** A boundary at `i` whose rest is unsplit is the last boundary. */
  lemma LastBoundaryIsThisOne(t: string, start: nat, i: nat, e: nat)
    requires start <= i < |t| && BoundaryEnd(t, i) == Some(e)
    requires |SplitFrom(t, e, e)| == 1 && SplitFrom(t, e, e)[0] == t[e..]
    requires forall j :: e <= j < |t| ==> BoundaryEnd(t, j).None?
    requires SplitFrom(t, start, i)[|SplitFrom(t, start, i)| - 1] == t[e..]
    requires |SplitFrom(t, start, i)| > 1
    ensures LastPieceFollowsLastBoundary(t, i, SplitFrom(t, start, i))
  {
    var parts := SplitFrom(t, start, i);
    assert |t| - |parts[|parts| - 1]| == e;
  }

  /** A boundary at `i` followed by later ones leaves the last boundary to the rest. */
  lemma LastBoundaryIsLater(t: string, i: nat, e: nat, parts: seq<string>, rest: seq<string>)
    requires i < e <= |t|
    requires LastPieceFollowsLastBoundary(t, e, rest) && |rest| > 1
    requires |parts| == |rest| + 1 && parts[|parts| - 1] == rest[|rest| - 1]
    ensures LastPieceFollowsLastBoundary(t, i, parts)
  {
    var k :| e <= k < |t| && BoundaryEnd(t, k) == Some(|t| - |rest[|rest| - 1]|);
  }

  /** Scanning past a position where no boundary starts keeps the last boundary. */
  lemma LastBoundaryNotHere(t: string, i: nat, parts: seq<string>)
    requires i < |t| && BoundaryEnd(t, i).None?
    requires LastPieceFollowsLastBoundary(t, i + 1, parts)
    ensures LastPieceFollowsLastBoundary(t, i, parts)
  {
    if |parts| > 1 {
      var k :| i + 1 <= k < |t| && BoundaryEnd(t, k) == Some(|t| - |parts[|parts| - 1]|);
    }
  }

  /** A boundary at `i` closes a piece and leaves the last piece to the rest of the scan. */
  lemma BoundaryKeepsLastPiece(t: string, start: nat, i: nat, e: nat)
    requires start <= i < |t| && BoundaryEnd(t, i) == Some(e)
    ensures var parts := SplitFrom(t, start, i);
      var rest := SplitFrom(t, e, e);
      |parts| == |rest| + 1 && parts[|parts| - 1] == rest[|rest| - 1]
  {
  }

  /** The pieces between the `}\s*,\s*{` boundaries of `t`, with the boundaries removed. */
  function SplitObjects(t: string): (parts: seq<string>)
    ensures |parts| >= 1
  {
    SplitFrom(t, 0, 0)
  }

  /** The first piece is the text up to the first boundary, or all of it when there is no
      boundary; the last piece is what follows the last boundary. */
  lemma SplitObjectsEnds(t: string)
    ensures var parts := SplitObjects(t);
      && |parts[0]| <= |t| && parts[0] == t[..|parts[0]|]
      && (forall j :: 0 <= j < |parts[0]| ==> BoundaryEnd(t, j).None?)
      && (|parts| == 1 ==> parts[0] == t)
      && (|parts| > 1 ==> BoundaryEnd(t, |parts[0]|).Some?)
      && LastPieceEndsText(t, 0, parts)
      && LastPieceFollowsLastBoundary(t, 0, parts)
  {
    SplitFromFirstPiece(t, 0, 0);
    SplitFromLastPiece(t, 0, 0);
    SplitFromLastBoundary(t, 0, 0);
  }

  /** Every range in `bounds` lies within `t`. */
  predicate Within(t: string, bounds: seq<(nat, nat)>)
  {
    |bounds| >= 1 && forall j :: 0 <= j < |bounds| ==> bounds[j].0 <= bounds[j].1 <= |t|
  }

  /** `parts[j]` is the text in the `j`-th range. */
  predicate PiecesAt(t: string, parts: seq<string>, bounds: seq<(nat, nat)>)
    requires Within(t, bounds)
  {
    |parts| == |bounds| && forall j :: 0 <= j < |bounds| ==> parts[j] == t[bounds[j].0..bounds[j].1]
  }

  /** A boundary runs from the end of each range to the start of the next. */
  predicate JoinedByBoundaries(t: string, bounds: seq<(nat, nat)>)
    requires Within(t, bounds)
  {
    forall j :: 0 <= j < |bounds| - 1 ==> BoundaryEnd(t, bounds[j].1) == Some(bounds[j + 1].0)
  }

  /** No boundary starts inside a range; inside the first, none at or after `i`. */
  predicate NoBoundaryInside(t: string, i: nat, bounds: seq<(nat, nat)>)
    requires Within(t, bounds)
  {
    && (forall k :: i <= k < bounds[0].1 ==> BoundaryEnd(t, k).None?)
    && (forall j, k :: 0 < j < |bounds| && bounds[j].0 <= k < bounds[j].1 ==> BoundaryEnd(t, k).None?)
  }

  /** Where every piece lies: `parts[j]` is `t[bounds[j].0..bounds[j].1]`. The first piece
      starts at `start` and the last ends with the text; each piece but the last is followed
      by a boundary that ends where the next piece starts; and no boundary starts inside a
      piece (inside the first, none at or after the scan position `i`). */
  predicate Cuts(t: string, start: nat, i: nat, parts: seq<string>, bounds: seq<(nat, nat)>)
  {
    && Within(t, bounds)
    && bounds[0].0 == start <= i <= bounds[0].1
    && bounds[|bounds| - 1].1 == |t|
    && PiecesAt(t, parts, bounds)
    && JoinedByBoundaries(t, bounds)
    && NoBoundaryInside(t, i, bounds)
  }

  /** The scan finds where each of its pieces lies. */
  lemma {:induction false} SplitFromCuts(t: string, start: nat, i: nat) returns (bounds: seq<(nat, nat)>)
    requires start <= i <= |t|
    decreases |t| - i
    ensures Cuts(t, start, i, SplitFrom(t, start, i), bounds)
  {
    if i == |t| {
      bounds := [(start, |t|)];
    } else {
      match BoundaryEnd(t, i)
      case Some(e) =>
        var rest := SplitFromCuts(t, e, e);
        bounds := [(start, i)] + rest;
        CutsAfterBoundary(t, start, i, e, SplitFrom(t, e, e), rest);
      case None =>
        bounds := SplitFromCuts(t, start, i + 1);
        CutsBeforeNoBoundary(t, start, i, SplitFrom(t, start, i), bounds);
    }
  }

  /** A boundary at `i` ends the first piece there and hands the rest to the next scan. */
  lemma CutsAfterBoundary(t: string, start: nat, i: nat, e: nat, parts: seq<string>, bounds: seq<(nat, nat)>)
    requires start <= i < |t| && BoundaryEnd(t, i) == Some(e)
    requires Cuts(t, e, e, parts, bounds)
    ensures Cuts(t, start, i, [t[start..i]] + parts, [(start, i)] + bounds)
  {
    var bs := [(start, i)] + bounds;
    WithinAfterBoundary(t, start, i, bounds);
    PiecesAfterBoundary(t, start, i, parts, bounds);
    JoinedAfterBoundary(t, start, i, e, bounds);
    NoBoundaryAfterBoundary(t, start, i, e, bounds);
    assert bs[|bs| - 1] == bounds[|bounds| - 1];
  }

  lemma WithinAfterBoundary(t: string, start: nat, i: nat, bounds: seq<(nat, nat)>)
    requires start <= i <= |t| && Within(t, bounds)
    ensures Within(t, [(start, i)] + bounds)
  {
    var bs := [(start, i)] + bounds;
    assert forall j :: 0 < j < |bs| ==> bs[j] == bounds[j - 1];
  }

  lemma PiecesAfterBoundary(t: string, start: nat, i: nat, parts: seq<string>, bounds: seq<(nat, nat)>)
    requires start <= i <= |t| && Within(t, bounds) && PiecesAt(t, parts, bounds)
    ensures Within(t, [(start, i)] + bounds) && PiecesAt(t, [t[start..i]] + parts, [(start, i)] + bounds)
  {
    WithinAfterBoundary(t, start, i, bounds);
    var bs := [(start, i)] + bounds;
    var ps := [t[start..i]] + parts;
    assert forall j :: 0 < j < |bs| ==> bs[j] == bounds[j - 1] && ps[j] == parts[j - 1];
  }

  lemma JoinedAfterBoundary(t: string, start: nat, i: nat, e: nat, bounds: seq<(nat, nat)>)
    requires start <= i < |t| && BoundaryEnd(t, i) == Some(e)
    requires Within(t, bounds) && bounds[0].0 == e && JoinedByBoundaries(t, bounds)
    ensures Within(t, [(start, i)] + bounds) && JoinedByBoundaries(t, [(start, i)] + bounds)
  {
    WithinAfterBoundary(t, start, i, bounds);
    var bs := [(start, i)] + bounds;
    assert forall j :: 0 < j < |bs| ==> bs[j] == bounds[j - 1];
  }

  lemma NoBoundaryAfterBoundary(t: string, start: nat, i: nat, e: nat, bounds: seq<(nat, nat)>)
    requires start <= i <= |t|
    requires Within(t, bounds) && bounds[0].0 == e && NoBoundaryInside(t, e, bounds)
    ensures Within(t, [(start, i)] + bounds) && NoBoundaryInside(t, i, [(start, i)] + bounds)
  {
    WithinAfterBoundary(t, start, i, bounds);
    var bs := [(start, i)] + bounds;
    assert forall j :: 0 < j < |bs| ==> bs[j] == bounds[j - 1];
  }

  /** A position where no boundary starts belongs to the first piece. */
  lemma CutsBeforeNoBoundary(t: string, start: nat, i: nat, parts: seq<string>, bounds: seq<(nat, nat)>)
    requires start <= i < |t| && BoundaryEnd(t, i).None?
    requires Cuts(t, start, i + 1, parts, bounds)
    ensures Cuts(t, start, i, parts, bounds)
  {
  }

  /** The pieces' positions determine the split: any pieces lying as `Cuts` says are the
      scan's. */
  lemma {:induction false} CutsDetermineSplit(t: string, start: nat, i: nat, parts: seq<string>, bounds: seq<(nat, nat)>)
    requires start <= i <= |t| && Cuts(t, start, i, parts, bounds)
    ensures parts == SplitFrom(t, start, i)
    decreases |t| - i
  {
    if i == |t| {
      CutsAtEnd(t, start, parts, bounds);
    } else {
      match BoundaryEnd(t, i)
      case Some(e) =>
        CutsOfRest(t, start, i, e, parts, bounds);
        CutsDetermineSplit(t, e, e, parts[1..], bounds[1..]);
        assert parts == [parts[0]] + parts[1..];
      case None =>
        CutsPastNoBoundary(t, start, i, parts, bounds);
        CutsDetermineSplit(t, start, i + 1, parts, bounds);
    }
  }

  /** At the end of the text no boundary can follow the first piece, so it is the only one. */
  lemma CutsAtEnd(t: string, start: nat, parts: seq<string>, bounds: seq<(nat, nat)>)
    requires start <= |t| && Cuts(t, start, |t|, parts, bounds)
    ensures parts == [t[start..]]
  {
    FirstPieceIsFollowed(t, start, |t|, parts, bounds);
    assert BoundaryEnd(t, |t|).None?;
    assert |bounds| == 1;
    assert parts[0] == t[start..];
    assert parts == [parts[0]];
  }

  /** A boundary follows the first piece when there are others. */
  lemma FirstPieceIsFollowed(t: string, start: nat, i: nat, parts: seq<string>, bounds: seq<(nat, nat)>)
    requires Cuts(t, start, i, parts, bounds)
    ensures |bounds| > 1 ==> BoundaryEnd(t, bounds[0].1) == Some(bounds[1].0)
  {
  }

  /** Past a boundary at `i`, the first piece ends at `i` and the others lie as a scan from
      the boundary's end would cut them. */
  lemma CutsOfRest(t: string, start: nat, i: nat, e: nat, parts: seq<string>, bounds: seq<(nat, nat)>)
    requires start <= i < |t| && BoundaryEnd(t, i) == Some(e)
    requires Cuts(t, start, i, parts, bounds)
    ensures |parts| > 1 && parts[0] == t[start..i]
    ensures Cuts(t, e, e, parts[1..], bounds[1..])
  {
    assert bounds[0].1 == i;
    assert |bounds| > 1;
    var bs := bounds[1..];
    assert forall j :: 0 <= j < |bs| ==> bs[j] == bounds[j + 1] && parts[1..][j] == parts[j + 1];
  }

  /** A position where no boundary starts cannot end the first piece. */
  lemma CutsPastNoBoundary(t: string, start: nat, i: nat, parts: seq<string>, bounds: seq<(nat, nat)>)
    requires start <= i < |t| && BoundaryEnd(t, i).None?
    requires Cuts(t, start, i, parts, bounds)
    ensures Cuts(t, start, i + 1, parts, bounds)
  {
    FirstPieceIsFollowed(t, start, i, parts, bounds);
    assert bounds[|bounds| - 1].1 == |t|;
  }

  /** `parts` is what splitting `t` at every boundary gives, as positions in `t` show. */
  ghost predicate IsBoundarySplit(t: string, parts: seq<string>)
  {
    exists bounds :: Cuts(t, 0, 0, parts, bounds)
  }

  /** `re.split` is the one split at every boundary: its pieces lie between consecutive
      boundaries, and no other list of pieces does. */
  lemma SplitObjectsIsTheBoundarySplit(t: string)
    ensures IsBoundarySplit(t, SplitObjects(t))
    ensures forall parts :: IsBoundarySplit(t, parts) ==> parts == SplitObjects(t)
  {
    var bounds := SplitFromCuts(t, 0, 0);
    forall parts | IsBoundarySplit(t, parts)
      ensures parts == SplitObjects(t)
    {
      var bs :| Cuts(t, 0, 0, parts, bs);
      CutsDetermineSplit(t, 0, 0, parts, bs);
    }
  }

  /** Text with no `}` has no boundary, so it stays one piece. */
  lemma {:induction false} SplitWithoutCloserIsWhole(t: string, start: nat, i: nat)
    requires start <= i <= |t|
    requires forall j :: i <= j < |t| ==> t[j] != '}'
    ensures SplitFrom(t, start, i) == [t[start..]]
    decreases |t| - i
  {
    if i < |t| {
      SplitWithoutCloserIsWhole(t, start, i + 1);
    }
  }

  /** The lines of `t` that are not blank, unstripped and in order. */
  function NonBlankLines(t: string): (lines: seq<string>)
    ensures forall j :: 0 <= j < |lines| ==> !IsBlank(lines[j]) && NoneIn(lines[j], IsLineBreak)
  {
    NonBlank(Split(t, IsLineBreak))
  }

  /** The members of `pieces` that are not blank, in order. */
  function NonBlank(pieces: seq<string>): (r: seq<string>)
    ensures |r| <= |pieces|
    ensures forall j :: 0 <= j < |r| ==> !IsBlank(r[j]) && r[j] in pieces
  {
    if pieces == [] then []
    else if IsBlank(pieces[0]) then NonBlank(pieces[1..])
    else [pieces[0]] + NonBlank(pieces[1..])
  }

  /** Filtering a concatenation filters each part: `NonBlank` keeps the order of its input. */
  lemma {:induction false} NonBlankAppend(a: seq<string>, b: seq<string>)
    ensures NonBlank(a + b) == NonBlank(a) + NonBlank(b)
  {
    if a == [] {
      assert a + b == b;
    } else {
      assert (a + b)[0] == a[0];
      assert (a + b)[1..] == a[1..] + b;
      NonBlankAppend(a[1..], b);
    }
  }

  /** A single piece is kept exactly when it is not blank. */
  lemma NonBlankOfOne(x: string)
    ensures NonBlank([x]) == if IsBlank(x) then [] else [x]
  {
    assert [x][1..] == [];
  }

  /** Every non-blank piece is kept. */
  lemma {:induction false} NonBlankKeepsEveryNonBlank(pieces: seq<string>)
    ensures forall j :: 0 <= j < |pieces| && !IsBlank(pieces[j]) ==> pieces[j] in NonBlank(pieces)
  {
    forall j | 0 <= j < |pieces| && !IsBlank(pieces[j])
      ensures pieces[j] in NonBlank(pieces)
    {
      assert pieces == pieces[..j] + ([pieces[j]] + pieces[j + 1..]);
      NonBlankAppend(pieces[..j], [pieces[j]] + pieces[j + 1..]);
      NonBlankAppend([pieces[j]], pieces[j + 1..]);
      NonBlankOfOne(pieces[j]);
    }
  }

  /** Every line of the text that is not blank is among the lines kept. */
  lemma NonBlankLinesKeepsEveryLine(t: string)
    ensures var lines := Split(t, IsLineBreak);
      forall j :: 0 <= j < |lines| && !IsBlank(lines[j]) ==> lines[j] in NonBlankLines(t)
  {
    NonBlankKeepsEveryNonBlank(Split(t, IsLineBreak));
  }

  /** A text without line breaks is one line, kept exactly when it is not blank. */
  lemma {:induction false} SingleLineText(t: string)
    requires NoneIn(t, IsLineBreak)
    ensures NonBlankLines(t) == if IsBlank(t) then [] else [t]
  {
    SplitPlain(t, IsLineBreak);
    assert [t][1..] == [];
  }

  /** The reassembly the code performs after a boundary split: `}` goes back on the first
      piece and `{` on every later one. */
  function ReassembleAsWritten(parts: seq<string>): (r: seq<string>)
    requires |parts| >= 1
    ensures |r| == |parts|
    ensures r[0] == parts[0] + "}"
    ensures forall j :: 1 <= j < |r| ==> r[j] == "{" + parts[j]
  {
    [parts[0] + "}"] + seq(|parts| - 1, j requires 0 <= j < |parts| - 1 => "{" + parts[j + 1])
  }

  /** The reassembly that gives every piece back both braces the boundary took from it. */
  function ReassembleIntended(parts: seq<string>): (r: seq<string>)
    requires |parts| >= 1
  {
    var n := |parts|;
    [parts[0] + "}"]
    + seq(n - 1, j requires 0 <= j < n - 1 => if j + 2 < n then "{" + parts[j + 1] + "}" else "{" + parts[j + 1])
  }

  /** The corrected reassembly keeps the pieces in number and order: `}` goes back on every
      piece but the last, `{` on every piece but the first. */
  lemma ReassembleIntendedPieces(parts: seq<string>)
    requires |parts| > 1
    ensures var r := ReassembleIntended(parts);
      && |r| == |parts|
      && r[0] == parts[0] + "}"
      && r[|r| - 1] == "{" + parts[|parts| - 1]
      && forall j :: 0 < j < |r| - 1 ==> r[j] == "{" + parts[j] + "}"
  {
  }

  /** `explode_lines`. */
  function ExplodeLines(lib: Foreign, text: string): (segs: seq<string>)
    ensures |segs| >= 1
    ensures TryLoadsOnce(lib, Strip(text)).0 != Null ==> segs == [Strip(text)]
    ensures TryLoadsOnce(lib, Strip(text)).0 == Null && |NonBlankLines(Strip(text))| > 1
            ==> segs == NonBlankLines(Strip(text))
    ensures TryLoadsOnce(lib, Strip(text)).0 == Null && |NonBlankLines(Strip(text))| <= 1
            ==> segs == if |SplitObjects(Strip(text))| > 1
                        then ReassembleAsWritten(SplitObjects(Strip(text))) else [Strip(text)]
  {
    var t := Strip(text);
    var (obj, _) := TryLoadsOnce(lib, t);
    if obj != Null then [t]
    else
      var lines := NonBlankLines(t);
      if |lines| > 1 then lines
      else
        var parts := SplitObjects(t);
        if |parts| > 1 then ReassembleAsWritten(parts) else [t]
  }

  /** Blank input explodes into the one empty segment. */
  lemma {:induction false} BlankTextIsOneEmptySegment(lib: Foreign, text: string)
    requires AllSpace(text)
    ensures ExplodeLines(lib, text) == [""]
  {
    StripOfSpace(text);
    assert Split("", IsLineBreak) == [""];
    assert IsBlank("");
    assert NonBlankLines("") == [];
    assert SplitObjects("") == [""];
  }

  /** Text that is not all whitespace keeps at least one non-blank segment. */
  lemma {:induction false} ExplodedTextKeepsANonBlankSegment(lib: Foreign, text: string)
    requires !AllSpace(text)
    ensures var segs := ExplodeLines(lib, text);
      exists j :: 0 <= j < |segs| && !IsBlank(segs[j])
  {
    var t := Strip(text);
    BlankIsAllSpace(text);
    BlankIsAllSpace(t);
    assert !IsSpace(t[0]);
    var segs := ExplodeLines(lib, text);
    if TryLoadsOnce(lib, t).0 != Null {
      assert segs[0] == t;
    } else if |NonBlankLines(t)| > 1 {
      assert !IsBlank(segs[0]);
    } else if |SplitObjects(t)| > 1 {
      var first := SplitObjects(t)[0];
      assert segs[0] == first + "}";
      BlankIsAllSpace(segs[0]);
      assert segs[0][|first|] == '}';
    } else {
      assert segs[0] == t;
    }
  }

  /** Every piece cut from a braced text and reassembled as intended is itself braced:
      it starts with `{` and ends with `}`. */
  lemma {:induction false} IntendedPiecesAreBraced(t: string)
    requires |t| > 0 && t[0] == '{' && t[|t| - 1] == '}'
    ensures var pieces := ReassembleIntended(SplitObjects(t));
      forall j :: 0 <= j < |pieces| ==> |pieces[j]| > 0 && pieces[j][0] == '{' && pieces[j][|pieces[j]| - 1] == '}'
  {
    var parts := SplitObjects(t);
    var n := |parts|;
    var pieces := ReassembleIntended(parts);
    SplitFromFirstPiece(t, 0, 0);
    SplitFromLastPiece(t, 0, 0);
    assert BoundaryEnd(t, 0) == None;
    if n == 1 {
      assert parts[0] == t;
    } else {
      assert |parts[0]| > 0;
      var last := parts[n - 1];
      assert |last| > 0;
      assert last[|last| - 1] == t[|t| - 1];
    }
  }

  /** Between two pieces the text holds the `}` that ends the one and the `{` that starts the
      next. */
  lemma CutsAreBraced(t: string, start: nat, i: nat, parts: seq<string>, bounds: seq<(nat, nat)>)
    requires Cuts(t, start, i, parts, bounds)
    ensures forall j :: 0 <= j < |bounds| - 1 ==> bounds[j].1 < |t| && t[bounds[j].1] == '}'
    ensures forall j :: 0 < j < |bounds| ==> 0 < bounds[j].0 && t[bounds[j].0 - 1] == '{'
  {
    forall j | 0 <= j < |bounds| - 1
      ensures bounds[j].1 < |t| && t[bounds[j].1] == '}'
    {
      assert BoundaryEnd(t, bounds[j].1) == Some(bounds[j + 1].0);
    }
    forall j | 0 < j < |bounds|
      ensures 0 < bounds[j].0 && t[bounds[j].0 - 1] == '{'
    {
      assert BoundaryEnd(t, bounds[j - 1].1) == Some(bounds[j].0);
    }
  }

  /** `{` put back before a piece restores the `{` the text has there. */
  lemma BraceBefore(t: string, s: nat, e: nat)
    requires 0 < s <= e <= |t| && t[s - 1] == '{'
    ensures "{" + t[s..e] == t[s - 1..e]
  {
  }

  /** `}` put back after a piece restores the `}` the text has there. */
  lemma BraceAfter(t: string, s: nat, e: nat)
    requires s <= e < |t| && t[e] == '}'
    ensures t[s..e] + "}" == t[s..e + 1]
  {
  }

  /** As written, for every text cut into several pieces, the segments are slices of the text:
      the first runs through the `}` of the first boundary and the last from the `{` of the
      last boundary, but every middle one runs from its `{` and stops just before the `}`
      that closes it in the text. */
  lemma AsWrittenMiddleSegmentsLoseTheirBrace(t: string) returns (bounds: seq<(nat, nat)>)
    requires |SplitObjects(t)| > 1
    ensures Cuts(t, 0, 0, SplitObjects(t), bounds)
    ensures forall j :: 0 <= j < |bounds| - 1 ==> bounds[j].1 < |t| && t[bounds[j].1] == '}'
    ensures forall j :: 0 < j < |bounds| ==> 0 < bounds[j].0 && t[bounds[j].0 - 1] == '{'
    ensures var segs := ReassembleAsWritten(SplitObjects(t));
      var n := |segs|;
      && segs[0] == t[..bounds[0].1 + 1]
      && segs[n - 1] == t[bounds[n - 1].0 - 1..]
      && forall j :: 0 < j < n - 1 ==> segs[j] == t[bounds[j].0 - 1..bounds[j].1]
  {
    bounds := SplitFromCuts(t, 0, 0);
    CutsAreBraced(t, 0, 0, SplitObjects(t), bounds);
    AsWrittenSlices(t, SplitObjects(t), bounds);
  }

  /** The as-written segments of any pieces that lie as `Cuts` says. */
  lemma AsWrittenSlices(t: string, parts: seq<string>, bounds: seq<(nat, nat)>)
    requires Cuts(t, 0, 0, parts, bounds) && |parts| > 1
    requires forall j :: 0 <= j < |bounds| - 1 ==> bounds[j].1 < |t| && t[bounds[j].1] == '}'
    requires forall j :: 0 < j < |bounds| ==> 0 < bounds[j].0 && t[bounds[j].0 - 1] == '{'
    ensures var segs := ReassembleAsWritten(parts);
      var n := |segs|;
      && segs[0] == t[..bounds[0].1 + 1]
      && segs[n - 1] == t[bounds[n - 1].0 - 1..]
      && forall j :: 0 < j < n - 1 ==> segs[j] == t[bounds[j].0 - 1..bounds[j].1]
  {
    var segs := ReassembleAsWritten(parts);
    var n := |segs|;
    BraceAfter(t, 0, bounds[0].1);
    BraceBefore(t, bounds[n - 1].0, |t|);
    forall j | 0 < j < n - 1
      ensures segs[j] == t[bounds[j].0 - 1..bounds[j].1]
    {
      BraceBefore(t, bounds[j].0, bounds[j].1);
    }
  }

  /** With the corrected reassembly, every segment of a text cut into several pieces is the
      slice of the text from the `{` before its piece through the `}` after it (the first from
      the start, the last to the end): each object comes back as it was written. */
  lemma IntendedSegmentsAreSlices(t: string) returns (bounds: seq<(nat, nat)>)
    requires |SplitObjects(t)| > 1
    ensures Cuts(t, 0, 0, SplitObjects(t), bounds)
    ensures forall j :: 0 <= j < |bounds| - 1 ==> bounds[j].1 < |t| && t[bounds[j].1] == '}'
    ensures forall j :: 0 < j < |bounds| ==> 0 < bounds[j].0 && t[bounds[j].0 - 1] == '{'
    ensures var pieces := ReassembleIntended(SplitObjects(t));
      var n := |pieces|;
      && n == |SplitObjects(t)|
      && pieces[0] == t[..bounds[0].1 + 1]
      && pieces[n - 1] == t[bounds[n - 1].0 - 1..]
      && forall j :: 0 < j < n - 1 ==> pieces[j] == t[bounds[j].0 - 1..bounds[j].1 + 1]
  {
    bounds := SplitFromCuts(t, 0, 0);
    CutsAreBraced(t, 0, 0, SplitObjects(t), bounds);
    IntendedSlices(t, SplitObjects(t), bounds);
  }

  /** The corrected segments of any pieces that lie as `Cuts` says. */
  lemma IntendedSlices(t: string, parts: seq<string>, bounds: seq<(nat, nat)>)
    requires Cuts(t, 0, 0, parts, bounds) && |parts| > 1
    requires forall j :: 0 <= j < |bounds| - 1 ==> bounds[j].1 < |t| && t[bounds[j].1] == '}'
    requires forall j :: 0 < j < |bounds| ==> 0 < bounds[j].0 && t[bounds[j].0 - 1] == '{'
    ensures var pieces := ReassembleIntended(parts);
      var n := |pieces|;
      && n == |parts|
      && pieces[0] == t[..bounds[0].1 + 1]
      && pieces[n - 1] == t[bounds[n - 1].0 - 1..]
      && forall j :: 0 < j < n - 1 ==> pieces[j] == t[bounds[j].0 - 1..bounds[j].1 + 1]
  {
    var pieces := ReassembleIntended(parts);
    ReassembleIntendedPieces(parts);
    var n := |pieces|;
    BraceAfter(t, 0, bounds[0].1);
    BraceBefore(t, bounds[n - 1].0, |t|);
    MiddlePiecesAreSlices(t, parts, bounds, pieces);
  }

  /** A middle piece with both braces back is the slice of the text around it. */
  lemma MiddlePiecesAreSlices(t: string, parts: seq<string>, bounds: seq<(nat, nat)>, pieces: seq<string>)
    requires Within(t, bounds) && PiecesAt(t, parts, bounds)
    requires forall j :: 0 <= j < |bounds| - 1 ==> bounds[j].1 < |t| && t[bounds[j].1] == '}'
    requires forall j :: 0 < j < |bounds| ==> 0 < bounds[j].0 && t[bounds[j].0 - 1] == '{'
    requires |pieces| == |parts| && forall j :: 0 < j < |pieces| - 1 ==> pieces[j] == "{" + parts[j] + "}"
    ensures forall j :: 0 < j < |pieces| - 1 ==> pieces[j] == t[bounds[j].0 - 1..bounds[j].1 + 1]
  {
    forall j | 0 < j < |pieces| - 1
      ensures pieces[j] == t[bounds[j].0 - 1..bounds[j].1 + 1]
    {
      BraceBefore(t, bounds[j].0, bounds[j].1 + 1);
      BraceAfter(t, bounds[j].0, bounds[j].1);
    }
  }

  /** As written, the middle one of three concatenated objects keeps no closing brace. */
  lemma MiddlePieceLosesItsBrace()
    ensures ReassembleAsWritten(SplitObjects("{a},{b},{c}")) == ["{a}", "{b", "{c}"]
  {
    var t := "{a},{b},{c}";
    assert SplitFrom(t, 9, 11) == ["c}"];
    assert BoundaryEnd(t, 10) == None;
    assert SplitFrom(t, 9, 10) == ["c}"];
    assert BoundaryEnd(t, 9) == None;
    assert SplitFrom(t, 9, 9) == ["c}"];
    assert SkipSpaces(t, 7) == 7 && SkipSpaces(t, 8) == 8;
    assert BoundaryEnd(t, 6) == Some(9);
    assert t[5..6] == "b";
    assert SplitFrom(t, 5, 6) == ["b", "c}"];
    assert BoundaryEnd(t, 5) == None;
    assert SplitFrom(t, 5, 5) == ["b", "c}"];
    assert SkipSpaces(t, 3) == 3 && SkipSpaces(t, 4) == 4;
    assert BoundaryEnd(t, 2) == Some(5);
    assert t[0..2] == "{a";
    assert SplitFrom(t, 0, 2) == ["{a", "b", "c}"];
    assert BoundaryEnd(t, 1) == None;
    assert BoundaryEnd(t, 0) == None;
    assert SplitObjects(t) == ["{a", "b", "c}"];
    var r := ReassembleAsWritten(["{a", "b", "c}"]);
    assert r[0] == "{a}" && r[1] == "{b" && r[2] == "{c}";
  }
}
