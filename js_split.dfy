/** `String.prototype.split` with a regular-expression separator, following the algorithm of
    `RegExp.prototype[@@split]`: scan `q` forward from the end `p` of the last separator; where the
    separator matches at `q` and ends at `e != p`, emit `s[p..q]` and continue from `e`; finally
    emit `s[p..]`. The three separators the parser splits on are modelled here. */
module JsSplit {
  import opened Wrappers
  import opened JsText

  /** The separators of the three `split` calls. */
  datatype Separator =
    | MarkerAhead  // /(?=\nSr\. No\.|வ. எண்)/, a zero-width lookahead
    | Ordinal      // /\d+\.\s*/
    | Comma        // /,\s*/

  const EnglishMarker: string := "\nSr. No."
  /** The 4 characters after `வ` and the wildcard in the Tamil alternative: " எண்". */
  const TamilMarkerTail: string := " \U{0B8E}\U{0BA3}\U{0BCD}"

  /** The Tamil alternative `வ. எண்`: its `.` is not escaped, so it matches any one code unit but a
      line terminator, and unlike the English alternative it is not anchored to a newline. A
      character outside the Basic Multilingual Plane fills two code units, and the second is not
      the space the tail starts with, so it cannot stand in the `.` slot. */
  predicate TamilMarkerAt(s: string, q: nat) {
    && q + 6 <= |s| && s[q] == '\U{0BB5}'
    && !IsLineTerminator(s[q + 1]) && IsOneCodeUnit(s[q + 1])
    && s[q + 2..q + 6] == TamilMarkerTail
  }

  /** A record-start marker begins at `q`. */
  predicate MarkerAt(s: string, q: nat) {
    StartsAt(s, q, EnglishMarker) || TamilMarkerAt(s, q)
  }

  /** A character outside the Basic Multilingual Plane right after `q` rules out a marker at `q`:
      the English marker has `S` there, and the Tamil one's `.` takes a single code unit. */
  lemma WideCharNoMarker(s: string, q: nat)
    requires q + 1 < |s| && !IsOneCodeUnit(s[q + 1])
    ensures !MarkerAt(s, q)
  {
  }

  /** Where a match of `sep` that starts exactly at `q` ends, if it matches there. */
  function SepEnd(s: string, q: nat, sep: Separator): (r: Option<nat>)
    requires q <= |s|
    ensures r.Some? ==> q < |s| && q <= r.value <= |s|
    ensures r.Some? ==> (r.value == q <==> sep == MarkerAhead)
  {
    match sep
    case MarkerAhead => if MarkerAt(s, q) then Some(q) else None
    case Ordinal =>
      var d := Span(s, q, Digit);
      if q < d < |s| && s[d] == '.' then Some(Span(s, d + 1, Space)) else None
    case Comma => if q < |s| && s[q] == ',' then Some(Span(s, q + 1, Space)) else None
  }

  /** `\d+\.\s*` at `q`: the digits `s[q..d]`, the full stop at `d`, then white space up to `e`,
      taken as far as it goes. */
  ghost predicate IsOrdinalAt(s: string, q: nat, d: nat, e: nat) {
    && q < d < e <= |s|
    && RunOf(s, q, d, Digit) && s[d] == '.'
    && RunOf(s, d + 1, e, Space) && (e == |s| || !InClass(s[e], Space))
  }

  /** A match of `sep` that starts at `q` and ends at `e`, as the regular expression defines it. */
  ghost predicate IsSepMatch(s: string, q: nat, e: nat, sep: Separator) {
    match sep
    case MarkerAhead => e == q && MarkerAt(s, q)
    case Ordinal => exists d: nat :: IsOrdinalAt(s, q, d, e)
    case Comma => q < e <= |s| && s[q] == ',' && RunOf(s, q + 1, e, Space) && (e == |s| || !InClass(s[e], Space))
  }

  /** `SepEnd` finds exactly the match the regular expression defines: the one match there is, or
      none when there is none. */
  lemma SepEndIsMatch(s: string, q: nat, sep: Separator)
    requires q <= |s|
    ensures SepEnd(s, q, sep).Some? ==> IsSepMatch(s, q, SepEnd(s, q, sep).value, sep)
    ensures SepEnd(s, q, sep).Some? ==> forall e: nat :: IsSepMatch(s, q, e, sep) ==> e == SepEnd(s, q, sep).value
    ensures SepEnd(s, q, sep).None? ==> forall e: nat :: !IsSepMatch(s, q, e, sep)
  {
    match sep
    case MarkerAhead =>
    case Ordinal =>
      var d := Span(s, q, Digit);
      forall e: nat, d': nat | IsOrdinalAt(s, q, d', e)
        ensures d' == d && e == Span(s, d + 1, Space)
      {
        SpanUnique(s, q, d', Digit);
        SpanUnique(s, d + 1, e, Space);
      }
      if q < d < |s| && s[d] == '.' {
        assert IsOrdinalAt(s, q, d, Span(s, d + 1, Space));
      }
    case Comma =>
      forall e: nat | IsSepMatch(s, q, e, Comma) ensures e == Span(s, q + 1, Space) {
        SpanUnique(s, q + 1, e, Space);
      }
  }

  /** No separator match in `s[p..q]` would cut there: the only match allowed is an empty one at `p`,
      which the algorithm skips. */
  ghost predicate NoCutIn(s: string, sep: Separator, p: nat, q: nat)
    requires p <= q <= |s|
  {
    forall x :: p <= x < q ==> SepEnd(s, x, sep).None? || SepEnd(s, x, sep).value == p
  }

  /** Within a piece the separator never matches, except the lookahead at the start of a piece. */
  ghost predicate Clean(piece: string, sep: Separator) {
    forall i :: 0 <= i < |piece| && SepEnd(piece, i, sep).Some? ==> i == 0 && sep == MarkerAhead
  }

  lemma SliceOfSlice(s: string, a: nat, b: nat, i: nat, j: nat)
    requires a <= b <= |s| && i <= j <= b - a
    ensures s[a..b][i..j] == s[a + i..a + j]
  {
    assert forall m :: 0 <= m < j - i ==> s[a..b][i..j][m] == s[a + i..a + j][m];
  }

  /** A separator found in a slice of `s` is found at the same place in `s`. */
  lemma SepEndInSlice(s: string, a: nat, b: nat, i: nat, sep: Separator)
    requires a <= b <= |s| && i <= b - a
    requires SepEnd(s[a..b], i, sep).Some?
    ensures SepEnd(s, a + i, sep).Some?
    ensures sep == MarkerAhead ==> SepEnd(s, a + i, sep).value == a + i
  {
    var t := s[a..b];
    match sep
    case MarkerAhead =>
      if StartsAt(t, i, EnglishMarker) {
        SliceOfSlice(s, a, b, i, i + |EnglishMarker|);
      } else {
        SliceOfSlice(s, a, b, i + 2, i + 6);
        assert s[a + i] == t[i] && s[a + i + 1] == t[i + 1];
      }
    case Ordinal =>
      var d := Span(t, i, Digit);
      assert RunOf(s, a + i, a + d, Digit) by {
        forall m | a + i <= m < a + d ensures InClass(s[m], Digit) {
          assert s[m] == t[m - a];
        }
      }
      assert s[a + d] == t[d];
      SpanUnique(s, a + i, a + d, Digit);
    case Comma =>
      assert s[a + i] == t[i];
  }

  lemma NoCutClean(s: string, sep: Separator, p: nat, q: nat)
    requires p <= q <= |s|
    requires NoCutIn(s, sep, p, q)
    ensures Clean(s[p..q], sep)
  {
    forall i | 0 <= i < q - p && SepEnd(s[p..q], i, sep).Some? ensures i == 0 && sep == MarkerAhead {
      SepEndInSlice(s, p, q, i, sep);
    }
  }

  /** The pieces from position `p` on, the scan having reached `q`. */
  function SplitFrom(s: string, sep: Separator, p: nat, q: nat): (r: seq<string>)
    requires p <= q <= |s|
    requires NoCutIn(s, sep, p, q)
    ensures |r| >= 1
    ensures forall k :: 0 <= k < |r| ==> Clean(r[k], sep)
    decreases |s| - q, if p == q then 0 else 1
  {
    if q == |s| then
      NoCutClean(s, sep, p, q);
      assert s[p..q] == s[p..];
      [s[p..]]
    else
      match SepEnd(s, q, sep)
      case None => SplitFrom(s, sep, p, q + 1)
      case Some(e) =>
        if e == p then SplitFrom(s, sep, p, q + 1)
        else
          NoCutClean(s, sep, p, q);
          [s[p..q]] + SplitFrom(s, sep, e, e)
  }

  /** The separator texts `s[q..e]` that `SplitFrom` cuts out, in order. */
  function SepsFrom(s: string, sep: Separator, p: nat, q: nat): seq<string>
    requires p <= q <= |s|
    requires NoCutIn(s, sep, p, q)
    decreases |s| - q, if p == q then 0 else 1
  {
    if q == |s| then []
    else
      match SepEnd(s, q, sep)
      case None => SepsFrom(s, sep, p, q + 1)
      case Some(e) => if e == p then SepsFrom(s, sep, p, q + 1) else [s[q..e]] + SepsFrom(s, sep, e, e)
  }

  /** `s.split(sep)`; the empty string gives `[""]`, since none of the separators matches it. */
  function Split(s: string, sep: Separator): (r: seq<string>)
    ensures |r| >= 1
    ensures forall k :: 0 <= k < |r| ==> Clean(r[k], sep)
  {
    if |s| == 0 && SepEnd(s, 0, sep).Some? then [] else SplitFrom(s, sep, 0, 0)
  }

  function Separators(s: string, sep: Separator): seq<string> {
    SepsFrom(s, sep, 0, 0)
  }

  /** The pieces with the separators between them put back. */
  function Weave(pieces: seq<string>, seps: seq<string>): string
    requires |pieces| == |seps| + 1
  {
    if seps == [] then pieces[0] else pieces[0] + seps[0] + Weave(pieces[1..], seps[1..])
  }

  lemma WeaveCons(piece: string, sep: string, pieces: seq<string>, seps: seq<string>)
    requires |pieces| == |seps| + 1
    ensures Weave([piece] + pieces, [sep] + seps) == piece + sep + Weave(pieces, seps)
  {
    assert ([piece] + pieces)[1..] == pieces;
    assert ([sep] + seps)[1..] == seps;
  }

  /** Where the scan at `q` does not cut, it moves on to `q + 1` with the same pieces to come. */
  lemma SplitFromSkip(s: string, sep: Separator, p: nat, q: nat)
    requires p <= q < |s|
    requires NoCutIn(s, sep, p, q)
    requires SepEnd(s, q, sep).None? || SepEnd(s, q, sep).value == p
    ensures NoCutIn(s, sep, p, q + 1)
    ensures SplitFrom(s, sep, p, q) == SplitFrom(s, sep, p, q + 1)
    ensures SepsFrom(s, sep, p, q) == SepsFrom(s, sep, p, q + 1)
  {
  }

  /** Where the scan at `q` cuts, the piece `s[p..q]` and the separator `s[q..e]` come first. */
  lemma SplitFromCut(s: string, sep: Separator, p: nat, q: nat)
    requires p <= q < |s|
    requires NoCutIn(s, sep, p, q)
    requires SepEnd(s, q, sep).Some? && SepEnd(s, q, sep).value != p
    ensures SplitFrom(s, sep, p, q) == [s[p..q]] + SplitFrom(s, sep, SepEnd(s, q, sep).value, SepEnd(s, q, sep).value)
    ensures SepsFrom(s, sep, p, q) == [s[q..SepEnd(s, q, sep).value]] + SepsFrom(s, sep, SepEnd(s, q, sep).value, SepEnd(s, q, sep).value)
  {
  }

  /** The scan passes `s[q..r]` when the separator matches nowhere in it. */
  lemma {:induction false} SkipRun(s: string, sep: Separator, p: nat, q: nat, r: nat)
    requires p <= q <= r <= |s| && NoCutIn(s, sep, p, q)
    requires forall m :: q <= m < r ==> SepEnd(s, m, sep).None?
    ensures NoCutIn(s, sep, p, r)
    ensures SplitFrom(s, sep, p, q) == SplitFrom(s, sep, p, r)
    decreases r - q
  {
    if q < r {
      SplitFromSkip(s, sep, p, q);
      SkipRun(s, sep, p, q + 1, r);
    }
  }

  lemma SlicesJoin(s: string, a: nat, b: nat, c: nat)
    requires a <= b <= c <= |s|
    ensures s[a..b] + s[b..c] + s[c..] == s[a..]
  {
    assert s[a..b] + s[b..c] == s[a..c];
  }

  lemma {:induction false} SplitFromWeave(s: string, sep: Separator, p: nat, q: nat)
    requires p <= q <= |s|
    requires NoCutIn(s, sep, p, q)
    ensures |SplitFrom(s, sep, p, q)| == |SepsFrom(s, sep, p, q)| + 1
    ensures Weave(SplitFrom(s, sep, p, q), SepsFrom(s, sep, p, q)) == s[p..]
    decreases |s| - q, if p == q then 0 else 1
  {
    if q == |s| {
      assert SplitFrom(s, sep, p, q) == [s[p..]];
    } else {
      var m := SepEnd(s, q, sep);
      if m.None? || m.value == p {
        SplitFromSkip(s, sep, p, q);
        SplitFromWeave(s, sep, p, q + 1);
      } else {
        var e := m.value;
        SplitFromCut(s, sep, p, q);
        SplitFromWeave(s, sep, e, e);
        WeaveCons(s[p..q], s[q..e], SplitFrom(s, sep, e, e), SepsFrom(s, sep, e, e));
        SlicesJoin(s, p, q, e);
      }
    }
  }

  /** Splitting loses nothing: the pieces and the separators between them rebuild the string. */
  lemma SplitWeave(s: string, sep: Separator)
    ensures |Split(s, sep)| == |Separators(s, sep)| + 1
    ensures Weave(Split(s, sep), Separators(s, sep)) == s
  {
    SplitFromWeave(s, sep, 0, 0);
  }

  /** The text of an ordinal separator: digits, a full stop, then white space. */
  ghost predicate IsOrdinalText(w: string) {
    exists d: nat :: 0 < d < |w| && RunOf(w, 0, d, Digit) && w[d] == '.' && RunOf(w, d + 1, |w|, Space)
  }

  lemma OrdinalSliceText(s: string, q: nat, e: nat)
    requires q <= |s| && SepEnd(s, q, Ordinal) == Some(e)
    ensures IsOrdinalText(s[q..e])
  {
    SepEndIsMatch(s, q, Ordinal);
    var d: nat :| IsOrdinalAt(s, q, d, e);
    var w := s[q..e];
    assert RunOf(w, 0, d - q, Digit) by {
      forall m | 0 <= m < d - q ensures InClass(w[m], Digit) {
        assert w[m] == s[q + m];
      }
    }
    assert RunOf(w, d - q + 1, |w|, Space) by {
      forall m | d - q + 1 <= m < |w| ensures InClass(w[m], Space) {
        assert w[m] == s[q + m];
      }
    }
    assert w[d - q] == s[d];
  }

  lemma {:induction false} OrdinalSepsFrom(s: string, p: nat, q: nat)
    requires p <= q <= |s|
    requires NoCutIn(s, Ordinal, p, q)
    ensures forall k :: 0 <= k < |SepsFrom(s, Ordinal, p, q)| ==> IsOrdinalText(SepsFrom(s, Ordinal, p, q)[k])
    decreases |s| - q, if p == q then 0 else 1
  {
    if q < |s| {
      match SepEnd(s, q, Ordinal)
      case None => OrdinalSepsFrom(s, p, q + 1);
      case Some(e) =>
        // An ordinal separator is never empty, so it always cuts.
        OrdinalSliceText(s, q, e);
        OrdinalSepsFrom(s, e, e);
    }
  }

  /** A digit just before an ordinal match extends it: `\d+` can start one character earlier. */
  lemma DigitExtendsOrdinal(s: string, x: nat)
    requires x < |s| && IsDigit(s[x]) && SepEnd(s, x + 1, Ordinal).Some?
    ensures SepEnd(s, x, Ordinal).Some?
  {
    assert Span(s, x, Digit) == Span(s, x + 1, Digit);
  }

  /** The scan stopped at `q` because the ordinal separator matches there, so no earlier digit
      could have started it: the piece before the cut does not end with a digit. */
  lemma NoDigitBeforeCut(s: string, p: nat, q: nat)
    requires p < q < |s| && NoCutIn(s, Ordinal, p, q) && SepEnd(s, q, Ordinal).Some?
    ensures !IsDigit(s[q - 1])
  {
    if IsDigit(s[q - 1]) {
      DigitExtendsOrdinal(s, q - 1);
      assert false;
    }
  }

  /** The first piece from `p` on is a prefix of `s[p..]`. */
  lemma {:induction false} FirstPiecePrefix(s: string, sep: Separator, p: nat, q: nat)
    requires p <= q <= |s|
    requires NoCutIn(s, sep, p, q)
    ensures SplitFrom(s, sep, p, q)[0] <= s[p..]
    decreases |s| - q, if p == q then 0 else 1
  {
    if q == |s| {
      assert SplitFrom(s, sep, p, q) == [s[p..]];
    } else {
      var m := SepEnd(s, q, sep);
      if m.None? || m.value == p {
        SplitFromSkip(s, sep, p, q);
        FirstPiecePrefix(s, sep, p, q + 1);
      } else {
        SplitFromCut(s, sep, p, q);
        assert s[p..q] <= s[p..];
      }
    }
  }

  /** No piece after the first starts with white space. */
  predicate LaterPiecesStartClean(r: seq<string>) {
    forall k :: 1 <= k < |r| ==> r[k] == [] || !IsSpace(r[k][0])
  }

  /** No piece before the last ends with a digit. */
  predicate EarlierPiecesEndClean(r: seq<string>) {
    forall k :: 0 <= k < |r| - 1 ==> r[k] == [] || !IsDigit(r[k][|r[k]| - 1])
  }

  lemma ConsStartClean(w: string, rest: seq<string>)
    requires |rest| >= 1 && LaterPiecesStartClean(rest)
    requires rest[0] == [] || !IsSpace(rest[0][0])
    ensures LaterPiecesStartClean([w] + rest)
  {
    forall k | 1 <= k < |rest| + 1 ensures ([w] + rest)[k] == [] || !IsSpace(([w] + rest)[k][0]) {
      assert ([w] + rest)[k] == rest[k - 1];
    }
  }

  lemma ConsEndClean(w: string, rest: seq<string>)
    requires |rest| >= 1 && EarlierPiecesEndClean(rest)
    requires w == [] || !IsDigit(w[|w| - 1])
    ensures EarlierPiecesEndClean([w] + rest)
  {
    forall k | 0 <= k < |rest| ensures ([w] + rest)[k] == [] || !IsDigit(([w] + rest)[k][|([w] + rest)[k]| - 1]) {
      if k > 0 {
        assert ([w] + rest)[k] == rest[k - 1];
      }
    }
  }

  /** The ordinal separator takes all the white space after its full stop, so a piece that follows
      a separator does not start with white space. */
  lemma {:induction false} OrdinalPiecesStart(s: string, p: nat, q: nat)
    requires p <= q <= |s|
    requires NoCutIn(s, Ordinal, p, q)
    ensures LaterPiecesStartClean(SplitFrom(s, Ordinal, p, q))
    decreases |s| - q, if p == q then 0 else 1
  {
    if q < |s| {
      match SepEnd(s, q, Ordinal)
      case None =>
        SplitFromSkip(s, Ordinal, p, q);
        OrdinalPiecesStart(s, p, q + 1);
      case Some(e) =>
        SplitFromCut(s, Ordinal, p, q);
        OrdinalPiecesStart(s, e, e);
        FirstPiecePrefix(s, Ordinal, e, e);
        var rest := SplitFrom(s, Ordinal, e, e);
        assert e == |s| || !InClass(s[e], Space);
        assert rest[0] != [] ==> rest[0][0] == s[e..][0] == s[e];
        ConsStartClean(s[p..q], rest);
    }
  }

  /** The ordinal separator starts at the first digit of its number, so a piece that a separator
      follows does not end with a digit. */
  lemma {:induction false} OrdinalPiecesEnd(s: string, p: nat, q: nat)
    requires p <= q <= |s|
    requires NoCutIn(s, Ordinal, p, q)
    ensures EarlierPiecesEndClean(SplitFrom(s, Ordinal, p, q))
    decreases |s| - q, if p == q then 0 else 1
  {
    if q < |s| {
      match SepEnd(s, q, Ordinal)
      case None =>
        SplitFromSkip(s, Ordinal, p, q);
        OrdinalPiecesEnd(s, p, q + 1);
      case Some(e) =>
        SplitFromCut(s, Ordinal, p, q);
        OrdinalPiecesEnd(s, e, e);
        if p < q {
          NoDigitBeforeCut(s, p, q);
          assert s[p..q][q - p - 1] == s[q - 1];
        }
        ConsEndClean(s[p..q], SplitFrom(s, Ordinal, e, e));
    }
  }

  /** `Split(x, Ordinal)` cuts at the first digit of each `\d+\.\s*` match and resumes after all
      of its white space. */
  lemma OrdinalPieces(x: string)
    ensures LaterPiecesStartClean(Split(x, Ordinal))
    ensures EarlierPiecesEndClean(Split(x, Ordinal))
    ensures Split(x, Ordinal)[0] <= x
  {
    OrdinalPiecesStart(x, 0, 0);
    OrdinalPiecesEnd(x, 0, 0);
    FirstPiecePrefix(x, Ordinal, 0, 0);
  }

  /** On a string without white space, every `,\s*` separator is the bare comma. */
  lemma {:induction false} CommaSepsBare(s: string, p: nat, q: nat)
    requires p <= q <= |s|
    requires NoCutIn(s, Comma, p, q)
    requires NoSpace(s)
    ensures forall k :: 0 <= k < |SepsFrom(s, Comma, p, q)| ==> SepsFrom(s, Comma, p, q)[k] == ","
    decreases |s| - q, if p == q then 0 else 1
  {
    if q < |s| {
      match SepEnd(s, q, Comma)
      case None => CommaSepsBare(s, p, q + 1);
      case Some(e) =>
        // A comma separator is never empty, so it always cuts.
        assert q + 1 < |s| ==> !InClass(s[q + 1], Space);
        assert e == q + 1;
        CommaSepsBare(s, e, e);
    }
  }

  /** The ordinal split cuts only at `\d+\.\s*` matches: every separator it removes is digits, a
      full stop and white space, and the pieces with those separators between them rebuild the
      string. */
  lemma OrdinalSeparators(x: string)
    ensures |Split(x, Ordinal)| == |Separators(x, Ordinal)| + 1
    ensures Weave(Split(x, Ordinal), Separators(x, Ordinal)) == x
    ensures forall k :: 0 <= k < |Separators(x, Ordinal)| ==> IsOrdinalText(Separators(x, Ordinal)[k])
  {
    SplitWeave(x, Ordinal);
    OrdinalSepsFrom(x, 0, 0);
  }
}
