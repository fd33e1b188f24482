/** The pieces of JavaScript's string and regular-expression semantics the parser relies on:
    the character classes `\s`, `\S`, `.`, `\d`, `[\d,]`, `[\d,\/]`, maximal runs of a class,
    and `String.prototype.trim`. A `char` is a Unicode scalar value, while JavaScript strings are
    UTF-16: a character outside the Basic Multilingual Plane is two code units there. Neither
    half is white space, a digit or a line terminator, so a repeated class (`\S+`, `.+?`,
    `[\s\S]`) treats them alike; only a single `.`, which consumes one code unit, needs
    `IsOneCodeUnit`. */
module JsText {

  /** LineTerminator of ECMAScript: exactly the characters `.` does not match. */
  predicate IsLineTerminator(c: char) {
    c == '\n' || c == '\r' || c == '\U{2028}' || c == '\U{2029}'
  }

  /** The character is one UTF-16 code unit, so a single `.` can consume it (the parser's
      regular expressions have no `u` flag). */
  predicate IsOneCodeUnit(c: char) {
    c < '\U{10000}'
  }

  /** WhiteSpace plus LineTerminator: the set that `\s` matches and that `trim()` removes. */
  predicate IsSpace(c: char) {
    || IsLineTerminator(c)
    || c == '\t' || c == '\U{000B}' || c == '\U{000C}' || c == ' ' || c == '\U{00A0}'
    || c == '\U{1680}' || ('\U{2000}' <= c <= '\U{200A}') || c == '\U{202F}'
    || c == '\U{205F}' || c == '\U{3000}' || c == '\U{FEFF}'
  }

  /** `\d` without the `u` flag: ASCII digits only. */
  predicate IsDigit(c: char) {
    '0' <= c <= '9'
  }

  /** The character classes that occur in the parser's regular expressions. */
  datatype CharClass =
    | Space              // \s
    | NonSpace           // \S
    | NonLineTerminator  // .
    | AnyChar            // [\s\S]
    | Digit              // \d
    | DigitOrComma       // [\d,]
    | DigitCommaOrSlash  // [\d,\/]

  predicate InClass(c: char, cls: CharClass) {
    match cls
    case Space => IsSpace(c)
    case NonSpace => !IsSpace(c)
    case NonLineTerminator => !IsLineTerminator(c)
    case AnyChar => true
    case Digit => IsDigit(c)
    case DigitOrComma => IsDigit(c) || c == ','
    case DigitCommaOrSlash => IsDigit(c) || c == ',' || c == '/'
  }

  /** Every character of `t[a..b]` belongs to `cls`. */
  predicate RunOf(t: string, a: nat, b: nat, cls: CharClass)
    requires a <= b <= |t|
  {
    forall m :: a <= m < b ==> InClass(t[m], cls)
  }

  /** Every character of a slice over a run belongs to the run's class. */
  lemma RunSlice(t: string, a: nat, b: nat, cls: CharClass)
    requires a <= b <= |t| && RunOf(t, a, b, cls)
    ensures forall i :: 0 <= i < b - a ==> InClass(t[a..b][i], cls)
  {
    forall i | 0 <= i < b - a ensures InClass(t[a..b][i], cls) {
      assert t[a..b][i] == t[a + i];
    }
  }

  /** The end of the longest run of `cls` characters starting at `i`: what a greedy `cls*` consumes. */
  function Span(t: string, i: nat, cls: CharClass): (k: nat)
    requires i <= |t|
    ensures i <= k <= |t|
    ensures RunOf(t, i, k, cls)
    ensures k == |t| || !InClass(t[k], cls)
    decreases |t| - i
  {
    if i < |t| && InClass(t[i], cls) then Span(t, i + 1, cls) else i
  }

  /** A maximal run is determined by where it starts: the contract of `Span` has one solution. */
  lemma SpanUnique(t: string, i: nat, k: nat, cls: CharClass)
    requires i <= k <= |t|
    requires RunOf(t, i, k, cls)
    requires k == |t| || !InClass(t[k], cls)
    ensures k == Span(t, i, cls)
  {
  }

  /** The whole string is white space, so `trim()` makes it "" and a JavaScript filter drops it. */
  predicate AllSpace(s: string) {
    forall i :: 0 <= i < |s| ==> IsSpace(s[i])
  }

  /** No character of the string is white space. */
  predicate NoSpace(s: string) {
    forall i :: 0 <= i < |s| ==> !IsSpace(s[i])
  }

  predicate StartsAt(t: string, p: nat, w: string) {
    p + |w| <= |t| && t[p..p + |w|] == w
  }

  /** `r` is `s` with leading and trailing white space removed: a slice of `s` with only white
      space around it that neither begins nor ends with white space. */
  ghost predicate IsTrimOf(s: string, r: string) {
    && (r == [] || (!IsSpace(r[0]) && !IsSpace(r[|r| - 1])))
    && exists i :: 0 <= i <= |s| - |r| && s[i..i + |r|] == r && AllSpace(s[..i]) && AllSpace(s[i + |r|..])
  }

  /** The largest `j` in `[i, e]` such that `s[j..e]` is all white space. */
  function TrimEnd(s: string, i: nat, e: nat): (j: nat)
    requires i <= e <= |s|
    ensures i <= j <= e
    ensures RunOf(s, j, e, Space)
    ensures j == i || !IsSpace(s[j - 1])
    decreases e - i
  {
    if i < e && IsSpace(s[e - 1]) then TrimEnd(s, i, e - 1) else e
  }

  /** `String.prototype.trim`. */
  function Trim(s: string): (r: string)
    ensures IsTrimOf(s, r)
    ensures r == [] <==> AllSpace(s)
  {
    var i := Span(s, 0, Space);
    var j := TrimEnd(s, i, |s|);
    assert AllSpace(s[..i]) by {
      forall m | 0 <= m < i ensures IsSpace(s[..i][m]) {
        assert InClass(s[m], Space);
      }
    }
    assert AllSpace(s[j..]) by {
      forall m | 0 <= m < |s| - j ensures IsSpace(s[j..][m]) {
        assert InClass(s[j + m], Space);
      }
    }
    assert i < |s| ==> !IsSpace(s[i]) && j > i;
    assert i == |s| ==> s[..i] == s;
    assert s[i..i + (j - i)] == s[i..j];
    s[i..j]
  }

  /** The end found by `TrimEnd` is the only one its contract allows. */
  lemma TrimEndUnique(s: string, i: nat, e: nat, j: nat)
    requires i <= j <= e <= |s|
    requires RunOf(s, j, e, Space)
    requires j == i || !IsSpace(s[j - 1])
    ensures j == TrimEnd(s, i, e)
  {
  }

  /** A slice that is all white space is a run of the `Space` class. */
  lemma AllSpaceRun(s: string, a: nat, b: nat)
    requires a <= b <= |s| && AllSpace(s[a..b])
    ensures RunOf(s, a, b, Space)
  {
    forall m | a <= m < b ensures InClass(s[m], Space) {
      assert s[a..b][m - a] == s[m];
    }
  }

  /** `IsTrimOf` leaves no choice: whatever satisfies it is what `trim()` returns. */
  lemma {:induction false} TrimOfIsTrim(s: string, r: string)
    requires IsTrimOf(s, r)
    ensures r == Trim(s)
  {
    var i :| 0 <= i <= |s| - |r| && s[i..i + |r|] == r && AllSpace(s[..i]) && AllSpace(s[i + |r|..]);
    var e := i + |r|;
    assert s[..i] == s[0..i];
    AllSpaceRun(s, 0, i);
    assert s[e..] == s[e..|s|];
    AllSpaceRun(s, e, |s|);
    if r == [] {
      TrimBlank(s, i);
    } else {
      TrimBetween(s, i, r);
    }
  }

  /** White space on both sides of `i` and nothing else: `trim()` gives "". */
  lemma TrimBlank(s: string, i: nat)
    requires i <= |s| && RunOf(s, 0, i, Space) && RunOf(s, i, |s|, Space)
    ensures Trim(s) == []
  {
    forall m | 0 <= m < |s| ensures IsSpace(s[m]) {
      assert InClass(s[m], Space);
    }
  }

  /** `r` sits at `i` with white space before it and after it, and neither starts nor ends with
      white space: `trim()` gives `r`. */
  lemma TrimBetween(s: string, i: nat, r: string)
    requires r != [] && i + |r| <= |s| && s[i..i + |r|] == r
    requires RunOf(s, 0, i, Space) && RunOf(s, i + |r|, |s|, Space)
    requires !IsSpace(r[0]) && !IsSpace(r[|r| - 1])
    ensures Trim(s) == r
  {
    var e := i + |r|;
    assert s[i] == r[0] && s[e - 1] == r[|r| - 1];
    SpanUnique(s, 0, i, Space);
    TrimEndUnique(s, i, |s|, e);
    TrimSlice(s);
  }

  /** `trim()` keeps the slice between the leading run and the trailing run of white space. */
  lemma TrimSlice(s: string)
    ensures Trim(s) == s[Span(s, 0, Space)..TrimEnd(s, Span(s, 0, Space), |s|)]
  {
  }

  /** Trimming a string without white space leaves it unchanged. */
  lemma TrimNoSpace(s: string)
    requires NoSpace(s)
    ensures Trim(s) == s
  {
    if s != [] {
      assert !InClass(s[0], Space);
      assert Span(s, 0, Space) == 0;
      assert !IsSpace(s[|s| - 1]);
    }
  }

  /** `array.filter(x => x.trim())`: keep the strings that are not all white space, in order. */
  function KeepNonBlank(ss: seq<string>): (r: seq<string>)
    ensures |r| <= |ss|
    ensures forall i :: 0 <= i < |r| ==> !AllSpace(r[i])
    ensures forall x :: x in r <==> x in ss && !AllSpace(x)
  {
    if ss == [] then []
    else if Trim(ss[0]) != [] then [ss[0]] + KeepNonBlank(ss[1..])
    else KeepNonBlank(ss[1..])
  }

  /** One entry is kept exactly when it is not blank. */
  lemma KeepNonBlankOne(x: string)
    ensures KeepNonBlank([x]) == if AllSpace(x) then [] else [x]
  {
    assert [x][1..] == [];
  }

  /** The filter works entry by entry: it keeps the order of the entries and every repetition. */
  lemma {:induction false} KeepNonBlankAppend(a: seq<string>, b: seq<string>)
    ensures KeepNonBlank(a + b) == KeepNonBlank(a) + KeepNonBlank(b)
  {
    if a == [] {
      assert a + b == b;
    } else {
      assert (a + b)[0] == a[0] && (a + b)[1..] == a[1..] + b;
      KeepNonBlankAppend(a[1..], b);
    }
  }

  /** Where no entry is blank, the filter keeps them all. */
  lemma {:induction false} KeepNonBlankAllKept(ss: seq<string>)
    requires forall i :: 0 <= i < |ss| ==> !AllSpace(ss[i])
    ensures KeepNonBlank(ss) == ss
  {
    if ss != [] {
      KeepNonBlankAllKept(ss[1..]);
    }
  }
}
