/** The field extractors of `transactions.service.ts`, lines 81-107. Each is total: a pattern
    that does not match gives an absent value or an empty list, never an error. */
module Extractors {
  import opened Wrappers
  import opened JsText
  import opened LabelPattern
  import opened JsSplit

  /** The capture of a `(cls+)` pattern is a non-empty run of `cls` characters. */
  lemma CaptureInClass(t: string, pat: Pattern, cls: CharClass)
    requires pat.capture == Greedy(cls) && Capture(t, pat).Some?
    ensures Capture(t, pat).value != []
    ensures forall i :: 0 <= i < |Capture(t, pat).value| ==> InClass(Capture(t, pat).value[i], cls)
  {
    var m := Match(t, pat).value;
    assert IsMatch(t, pat, m.at, m.colon, m.start, m.end);
    assert IsCaptureAt(t, m.start, m.end, Greedy(cls));
    RunSlice(t, m.start, m.end, cls);
    assert Capture(t, pat).value == t[m.start..m.end];
  }

  // ---------------------------------------------------------------- extractField, lines 81-84

  /** `extractField`: the first capture of the pattern, trimmed; absent when it does not match. */
  function ExtractField(t: string, pat: Pattern): (r: Option<string>)
    ensures r.None? <==> NoMatch(t, pat)
    ensures r.Some? ==> Capture(t, pat).Some? && IsTrimOf(Capture(t, pat).value, r.value)
  {
    match Capture(t, pat)
    case None => None
    case Some(c) => Some(Trim(c))
  }

  // ---------------------------------------------------------------- extractDate, lines 86-89

  /** `extractDate`: `new Date(...)` applied to what `extractField` would return; `parseDate`
      stands for the JavaScript `Date` constructor, which is called only when the pattern matches. */
  function ExtractDate<D>(t: string, pat: Pattern, parseDate: string -> D): (r: Option<D>)
    ensures r.None? <==> NoMatch(t, pat)
    ensures r.Some? ==> ExtractField(t, pat).Some? && r.value == parseDate(ExtractField(t, pat).value)
  {
    match Capture(t, pat)
    case None => None
    case Some(c) => Some(parseDate(Trim(c)))
  }

  // ---------------------------------------------------------------- extractNumber, lines 91-94

  /** A JavaScript number as `parseFloat` produces it from a string of decimal digits. */
  datatype JsNumber = Num(value: nat) | NaN

  predicate AllDigits(d: string) {
    forall i :: 0 <= i < |d| ==> IsDigit(d[i])
  }

  /** `s.replace(/,/g, '')`. */
  function StripCommas(s: string): (r: string)
    ensures ',' !in r
    ensures forall c :: c in r <==> c in s && c != ','
    ensures ',' !in s ==> r == s
  {
    if s == [] then []
    else if s[0] == ',' then StripCommas(s[1..])
    else [s[0]] + StripCommas(s[1..])
  }

  /** The number a string of decimal digits spells. */
  function DecimalValue(d: string): nat
    requires AllDigits(d)
  {
    if d == [] then 0 else 10 * DecimalValue(d[..|d| - 1]) + (d[|d| - 1] as int - '0' as int)
  }

  /** `parseFloat` on a string of decimal digits: `NaN` for the empty string. */
  function ParseFloat(d: string): (r: JsNumber)
    requires AllDigits(d)
    ensures r.NaN? <==> d == []
  {
    if d == [] then NaN else Num(DecimalValue(d))
  }

  predicate HasDigit(s: string) {
    exists i :: 0 <= i < |s| && IsDigit(s[i])
  }

  /** `extractNumber` for a pattern whose capture is `([\d,]+)`, as both of its uses are: every
      comma is stripped, and a capture holding a digit gives the number its digits spell. */
  function ExtractNumber(t: string, pat: Pattern): (r: Option<JsNumber>)
    requires pat.capture == Greedy(DigitOrComma)
    ensures r.None? <==> NoMatch(t, pat)
    ensures r.Some? ==> var c := Capture(t, pat).value;
              && AllDigits(StripCommas(c))
              && (HasDigit(c) ==> r.value == Num(DecimalValue(StripCommas(c))))
              && (!HasDigit(c) ==> r.value == NaN)
  {
    match Capture(t, pat)
    case None => None
    case Some(c) =>
      CaptureInClass(t, pat, DigitOrComma);
      var d := StripCommas(c);
      assert AllDigits(d) by {
        forall i | 0 <= i < |d| ensures IsDigit(d[i]) {
          assert d[i] in c;
        }
      }
      assert HasDigit(c) <==> d != [] by {
        if HasDigit(c) {
          var i :| 0 <= i < |c| && IsDigit(c[i]);
          assert c[i] in d;
        }
        if d != [] {
          assert d[0] in c;
        }
      }
      Some(ParseFloat(d))
  }

  lemma {:induction false} StripCommasAppend(a: string, b: string)
    ensures StripCommas(a + b) == StripCommas(a) + StripCommas(b)
  {
    if a != [] {
      assert (a + b)[0] == a[0] && (a + b)[1..] == a[1..] + b;
      assert StripCommas(a + b) == if a[0] == ',' then StripCommas(a[1..] + b) else [a[0]] + StripCommas(a[1..] + b);
      StripCommasAppend(a[1..], b);
      if a[0] != ',' {
        assert [a[0]] + (StripCommas(a[1..]) + StripCommas(b)) == ([a[0]] + StripCommas(a[1..])) + StripCommas(b);
      }
    } else {
      assert a + b == b;
    }
  }

  /** Thousands separators do not matter: a comma anywhere in the digits is stripped. */
  lemma ThousandsSeparatorIgnored(a: string, b: string)
    ensures StripCommas(a + "," + b) == StripCommas(a + b)
  {
    StripCommasAppend(a + ",", b);
    StripCommasAppend(a, ",");
    StripCommasAppend(a, b);
  }

  /** The decimal digits of `n`, most significant first. */
  function ToDecimal(n: nat): (d: string)
    ensures AllDigits(d) && d != []
  {
    var last := ['0' + (n % 10) as char];
    if n < 10 then last else ToDecimal(n / 10) + last
  }

  /** Parsing gives back every number it could have been written from. */
  lemma {:induction false} DecimalRoundTrip(n: nat)
    ensures DecimalValue(ToDecimal(n)) == n
  {
    if n >= 10 {
      DecimalRoundTrip(n / 10);
      var d := ToDecimal(n);
      assert d[..|d| - 1] == ToDecimal(n / 10);
    }
  }

  // ---------------------------------------------------------------- extractNames, lines 96-101

  /** No ordinal marker: no digit is immediately followed by a full stop. */
  predicate NoOrdinal(x: string) {
    forall i :: 0 <= i < |x| - 1 ==> !(IsDigit(x[i]) && x[i + 1] == '.')
  }

  /** A digit followed by a full stop is where the ordinal separator matches. */
  lemma OrdinalSepAt(x: string, i: nat)
    requires i < |x| - 1
    ensures IsDigit(x[i]) && x[i + 1] == '.' ==> SepEnd(x, i, Ordinal).Some?
  {
    if IsDigit(x[i]) && x[i + 1] == '.' {
      assert InClass(x[i], Digit) && !InClass(x[i + 1], Digit);
      SpanUnique(x, i, i + 1, Digit);
    }
  }

  lemma CleanNoOrdinal(x: string)
    requires Clean(x, Ordinal)
    ensures NoOrdinal(x)
  {
    forall i | 0 <= i < |x| - 1 ensures !(IsDigit(x[i]) && x[i + 1] == '.') {
      OrdinalSepAt(x, i);
    }
  }

  /** `extractNames`: the trimmed capture split on `\d+\.\s*`, blank entries dropped. Entries are
      not trimmed one by one, so all but the last keep the space before the next ordinal. */
  function ExtractNames(t: string, pat: Pattern): (r: seq<string>)
    ensures NoMatch(t, pat) ==> r == []
    ensures forall i :: 0 <= i < |r| ==> !AllSpace(r[i]) && NoOrdinal(r[i])
    ensures Capture(t, pat).Some? ==>
              forall x :: x in r <==> x in Split(Trim(Capture(t, pat).value), Ordinal) && !AllSpace(x)
  {
    match Capture(t, pat)
    case None => []
    case Some(c) =>
      var pieces := Split(Trim(c), Ordinal);
      var names := KeepNonBlank(pieces);
      assert forall i :: 0 <= i < |names| ==> NoOrdinal(names[i]) by {
        forall i | 0 <= i < |names| ensures NoOrdinal(names[i]) {
          assert names[i] in pieces;
          var k :| 0 <= k < |pieces| && pieces[k] == names[i];
          CleanNoOrdinal(pieces[k]);
        }
      }
      names
  }

  /** The names are the non-blank pieces of the trimmed capture, in order, and the pieces are cut
      only at `\d+\.\s*` matches: with the ordinal separators put back between them, they rebuild
      the trimmed capture. */
  lemma NamesBetweenOrdinals(t: string, pat: Pattern, c: string)
    requires Capture(t, pat) == Some(c)
    ensures ExtractNames(t, pat) == KeepNonBlank(Split(Trim(c), Ordinal))
    ensures |Split(Trim(c), Ordinal)| == |Separators(Trim(c), Ordinal)| + 1
    ensures Weave(Split(Trim(c), Ordinal), Separators(Trim(c), Ordinal)) == Trim(c)
    ensures forall k :: 0 <= k < |Separators(Trim(c), Ordinal)| ==> IsOrdinalText(Separators(Trim(c), Ordinal)[k])
    ensures EarlierPiecesEndClean(Split(Trim(c), Ordinal))
    ensures forall k :: 0 <= k < |Split(Trim(c), Ordinal)| ==>
              Split(Trim(c), Ordinal)[k] == [] || !IsSpace(Split(Trim(c), Ordinal)[k][0])
  {
    var x := Trim(c);
    var pieces := Split(x, Ordinal);
    OrdinalSeparators(x);
    OrdinalPieces(x);
    if pieces[0] != [] {
      assert pieces[0][0] == x[0];
    }
    forall k | 0 <= k < |pieces| ensures pieces[k] == [] || !IsSpace(pieces[k][0]) {
      if k > 0 {
        assert LaterPiecesStartClean(pieces);
      }
    }
  }

  /** No name starts with white space: the capture is trimmed and each ordinal separator takes
      the white space after its full stop. Only the end of a name may keep white space. */
  lemma NamesStartWithText(t: string, pat: Pattern, c: string)
    requires Capture(t, pat) == Some(c)
    ensures forall i :: 0 <= i < |ExtractNames(t, pat)| ==> !IsSpace(ExtractNames(t, pat)[i][0])
  {
    NamesBetweenOrdinals(t, pat, c);
    var pieces := Split(Trim(c), Ordinal);
    var names := ExtractNames(t, pat);
    forall i | 0 <= i < |names| ensures !IsSpace(names[i][0]) {
      assert names[i] in pieces && !AllSpace(names[i]);
      var k :| 0 <= k < |pieces| && pieces[k] == names[i];
    }
  }

  // ---------------------------------------------------------------- extractSurveyNumbers, lines 103-107

  const SurveyNumberPattern: Pattern := Pattern("Survey No.", Greedy(DigitCommaOrSlash))

  /** `array.map(x => x.trim())`. */
  function TrimEach(ss: seq<string>): (r: seq<string>)
    ensures |r| == |ss|
    ensures forall i :: 0 <= i < |ss| ==> r[i] == Trim(ss[i])
  {
    if ss == [] then [] else [Trim(ss[0])] + TrimEach(ss[1..])
  }

  /** `Array.prototype.join(d)`. */
  function Join(ss: seq<string>, d: string): string {
    if ss == [] then [] else if |ss| == 1 then ss[0] else ss[0] + d + Join(ss[1..], d)
  }

  function CountChar(s: string, c: char): nat {
    if s == [] then 0 else (if s[0] == c then 1 else 0) + CountChar(s[1..], c)
  }

  predicate DigitsAndSlashes(x: string) {
    forall i :: 0 <= i < |x| ==> IsDigit(x[i]) || x[i] == '/'
  }

  lemma {:induction false} CountCharAppend(a: string, b: string, c: char)
    ensures CountChar(a + b, c) == CountChar(a, c) + CountChar(b, c)
  {
    if a != [] {
      assert (a + b)[0] == a[0] && (a + b)[1..] == a[1..] + b;
      assert CountChar(a + b, c) == (if a[0] == c then 1 else 0) + CountChar(a[1..] + b, c);
      CountCharAppend(a[1..], b, c);
    } else {
      assert a + b == b;
    }
  }

  lemma {:induction false} CountCharAbsent(a: string, c: char)
    requires c !in a
    ensures CountChar(a, c) == 0
  {
    if a != [] {
      CountCharAbsent(a[1..], c);
    }
  }

  /** Pieces joined by commas: the commas are the separators, and the pieces hold none. */
  lemma {:induction false} WeaveCommas(pieces: seq<string>, seps: seq<string>)
    requires |pieces| == |seps| + 1
    requires forall k :: 0 <= k < |seps| ==> seps[k] == ","
    requires forall k :: 0 <= k < |pieces| ==> ',' !in pieces[k]
    ensures Weave(pieces, seps) == Join(pieces, ",")
    ensures CountChar(Weave(pieces, seps), ',') == |seps|
    ensures forall k, c :: 0 <= k < |pieces| && c in pieces[k] ==> c in Weave(pieces, seps)
  {
    CountCharAbsent(pieces[0], ',');
    if seps != [] {
      WeaveCommas(pieces[1..], seps[1..]);
      var rest := Weave(pieces[1..], seps[1..]);
      CountCharAppend(pieces[0] + ",", rest, ',');
      CountCharAppend(pieces[0], ",", ',');
      forall k, c | 0 <= k < |pieces| && c in pieces[k] ensures c in Weave(pieces, seps) {
        if k > 0 {
          assert pieces[k] == pieces[1..][k - 1];
        }
      }
    }
  }

  /** The `,\s*` split of a run of digits, commas and slashes, as `extractSurveyNumbers` sees it. */
  lemma SurveySplit(c: string)
    requires forall i :: 0 <= i < |c| ==> InClass(c[i], DigitCommaOrSlash)
    ensures var pieces := Split(c, Comma);
      && |pieces| == CountChar(c, ',') + 1
      && (forall k :: 0 <= k < |pieces| ==> DigitsAndSlashes(pieces[k]) && NoSpace(pieces[k]))
      && Join(pieces, ",") == c
  {
    assert NoSpace(c) by {
      forall i | 0 <= i < |c| ensures !IsSpace(c[i]) {
        assert InClass(c[i], DigitCommaOrSlash);
      }
    }
    var pieces := Split(c, Comma);
    SplitWeave(c, Comma);
    CommaSepsBare(c, 0, 0);
    forall k | 0 <= k < |pieces| ensures ',' !in pieces[k] {
      forall i | 0 <= i < |pieces[k]| ensures pieces[k][i] != ',' {
        assert Clean(pieces[k], Comma);
        assert pieces[k][i] == ',' ==> SepEnd(pieces[k], i, Comma).Some?;
      }
    }
    WeaveCommas(pieces, Separators(c, Comma));
    forall k | 0 <= k < |pieces| ensures DigitsAndSlashes(pieces[k]) && NoSpace(pieces[k]) {
      forall i | 0 <= i < |pieces[k]| ensures (IsDigit(pieces[k][i]) || pieces[k][i] == '/') && !IsSpace(pieces[k][i]) {
        assert pieces[k][i] in c;
      }
    }
  }

  /** `extractSurveyNumbers`: the `([\d,\/]+)` capture after "Survey No." split on `,\s*`, each
      token trimmed. There is one more token than commas, each token is digits and slashes, and
      joining the tokens with commas gives the capture back. */
  function ExtractSurveyNumbers(t: string): (r: seq<string>)
    ensures NoMatch(t, SurveyNumberPattern) ==> r == []
    ensures Capture(t, SurveyNumberPattern).Some? ==>
              && |r| == CountChar(Capture(t, SurveyNumberPattern).value, ',') + 1
              && (forall i :: 0 <= i < |r| ==> DigitsAndSlashes(r[i]))
              && Join(r, ",") == Capture(t, SurveyNumberPattern).value
  {
    match Capture(t, SurveyNumberPattern)
    case None => []
    case Some(c) =>
      CaptureInClass(t, SurveyNumberPattern, DigitCommaOrSlash);
      var pieces := Split(c, Comma);
      SurveySplit(c);
      assert TrimEach(pieces) == pieces by {
        forall k | 0 <= k < |pieces| ensures Trim(pieces[k]) == pieces[k] {
          TrimNoSpace(pieces[k]);
        }
      }
      TrimEach(pieces)
  }

  lemma {:induction false} JoinLast(ss: seq<string>, d: string)
    requires |ss| >= 2
    ensures Join(ss, d) == Join(ss[..|ss| - 1], d) + d + ss[|ss| - 1]
  {
    if |ss| > 2 {
      JoinLast(ss[1..], d);
      assert ss[1..][..|ss| - 2] == ss[..|ss| - 1][1..];
    }
  }

  /** A comma join that ends with a comma has an empty last token when that token is made of
      digits and slashes. */
  lemma EndsWithCommaLastEmpty(init: string, last: string, c: string)
    requires c == init + "," + last && DigitsAndSlashes(last) && c[|c| - 1] == ','
    ensures last == []
  {
    if last != [] {
      // `c` would end with the last character of `last`, a digit or a slash.
      assert false;
    }
  }

  /** A capture that ends with a comma, as that of "Survey No. : 12/3, 45" does (the class stops
      at the space after the comma), makes the last survey number the empty string. */
  lemma TrailingCommaEmptyNumber(t: string)
    requires Capture(t, SurveyNumberPattern).Some?
    requires var c := Capture(t, SurveyNumberPattern).value; |c| > 0 && c[|c| - 1] == ','
    ensures var r := ExtractSurveyNumbers(t); |r| >= 2 && r[|r| - 1] == []
  {
    var c := Capture(t, SurveyNumberPattern).value;
    var r := ExtractSurveyNumbers(t);
    CountCharAppend(c[..|c| - 1], c[|c| - 1..], ',');
    assert c[..|c| - 1] + c[|c| - 1..] == c;
    assert CountChar(c[|c| - 1..], ',') == 1;
    JoinLast(r, ",");
    EndsWithCommaLastEmpty(Join(r[..|r| - 1], ","), r[|r| - 1], c);
  }
}
