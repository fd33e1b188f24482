/** The label patterns of the field extractors, `/Label\s*:\s*(CAPTURE)/`, matched the way
    `String.prototype.match` matches a regular expression without the `g` flag: the leftmost
    position where the whole pattern matches, and there the first alternative of the
    backtracking search. The only backtracking that can change the outcome is the second
    `\s*` giving back white space when the capture cannot start after all of it. */
module LabelPattern {
  import opened Wrappers
  import opened JsText

  /** What the capture group of a pattern is. */
  datatype CaptureKind =
    | Greedy(cls: CharClass)          // (cls+), as in (\S+), (.+), ([\s\S]+), ([\d,]+)
    | LazyUntil(terminator: string)   // ([\s\S]+?)Terminator

  /** `/label\s*:\s*(capture)/`, the shape shared by every pattern of the parser. */
  datatype Pattern = Pattern(labelText: string, capture: CaptureKind)

  /** Where a match was found: the label at `at`, the colon at `colon`, and the capture
      group spanning `start..end`. */
  datatype Located = Located(at: nat, colon: nat, start: nat, end: nat)

  /** The capture group can match exactly `t[s..e]`, ending where the pattern ends. */
  ghost predicate IsCaptureAt(t: string, s: nat, e: nat, kind: CaptureKind) {
    s < e <= |t| &&
    match kind
    case Greedy(cls) => RunOf(t, s, e, cls) && (e == |t| || !InClass(t[e], cls))
    case LazyUntil(w) => StartsAt(t, e, w) && forall m :: s < m < e ==> !StartsAt(t, m, w)
  }

  ghost predicate NoCaptureAt(t: string, s: nat, kind: CaptureKind) {
    forall e: nat :: !IsCaptureAt(t, s, e, kind)
  }

  /** The whole pattern matches with the label at `p`, the colon at `c` and the capture `t[s..e]`. */
  ghost predicate IsMatch(t: string, pat: Pattern, p: nat, c: nat, s: nat, e: nat) {
    var k := p + |pat.labelText|;
    && StartsAt(t, p, pat.labelText)
    && k <= c < s <= |t|
    && RunOf(t, k, c, Space) && t[c] == ':'
    && RunOf(t, c + 1, s, Space)
    && IsCaptureAt(t, s, e, pat.capture)
  }

  /** The match `String.prototype.match` reports: the leftmost one, and at that position the one
      whose second `\s*` took the most white space. */
  ghost predicate IsFirstMatch(t: string, pat: Pattern, m: Located) {
    && IsMatch(t, pat, m.at, m.colon, m.start, m.end)
    && forall p: nat, c: nat, s: nat, e: nat :: IsMatch(t, pat, p, c, s, e) ==> m.at < p || (m.at == p && s <= m.start)
  }

  ghost predicate NoMatch(t: string, pat: Pattern) {
    forall p: nat, c: nat, s: nat, e: nat :: !IsMatch(t, pat, p, c, s, e)
  }

  /** The first position at or after `from` where `w` occurs. */
  function FindFrom(t: string, from: nat, w: string): (r: Option<nat>)
    ensures r.Some? ==> from <= r.value && StartsAt(t, r.value, w)
    ensures r.Some? ==> forall m :: from <= m < r.value ==> !StartsAt(t, m, w)
    ensures r.None? ==> forall m :: from <= m ==> !StartsAt(t, m, w)
    decreases |t| + 1 - from
  {
    if from > |t| then None
    else if StartsAt(t, from, w) then Some(from)
    else FindFrom(t, from + 1, w)
  }

  /** The end of the capture group when it starts at `s`, if it can start there. */
  function CaptureEnd(t: string, s: nat, kind: CaptureKind): (r: Option<nat>)
    requires s <= |t|
    ensures r.Some? ==> IsCaptureAt(t, s, r.value, kind)
    ensures r.Some? ==> forall e: nat :: IsCaptureAt(t, s, e, kind) ==> e == r.value
    ensures r.None? ==> NoCaptureAt(t, s, kind)
  {
    match kind
    case Greedy(cls) =>
      if s < |t| && InClass(t[s], cls) then
        var e := Span(t, s, cls);
        assert forall e': nat :: IsCaptureAt(t, s, e', kind) ==> e' == e by {
          forall e': nat | IsCaptureAt(t, s, e', kind) ensures e' == e {
            SpanUnique(t, s, e', cls);
          }
        }
        Some(e)
      else None
    case LazyUntil(w) => FindFrom(t, s + 1, w)
  }

  /** The backtracking of the second `\s*`: try capture starts `s`, `s - 1`, ..., `j` in that order. */
  function CaptureFrom(t: string, j: nat, s: nat, kind: CaptureKind): (r: Option<(nat, nat)>)
    requires j <= s <= |t|
    ensures r.Some? ==> j <= r.value.0 <= s && IsCaptureAt(t, r.value.0, r.value.1, kind)
    ensures r.Some? ==> forall x :: r.value.0 < x <= s ==> NoCaptureAt(t, x, kind)
    ensures r.None? ==> forall x :: j <= x <= s ==> NoCaptureAt(t, x, kind)
    decreases s - j
  {
    match CaptureEnd(t, s, kind)
    case Some(e) => Some((s, e))
    case None => if s == j then None else CaptureFrom(t, j, s - 1, kind)
  }

  /** A white-space run starting at `i` cannot reach past the maximal one. */
  lemma SpaceRunBound(t: string, i: nat, b: nat)
    requires i <= b <= |t|
    requires RunOf(t, i, b, Space)
    ensures b <= Span(t, i, Space)
  {
  }

  /** The colon of a match is the first character after the white space that follows the label. */
  lemma ColonPosition(t: string, k: nat, c: nat)
    requires k <= c < |t|
    requires RunOf(t, k, c, Space) && t[c] == ':'
    ensures c == Span(t, k, Space)
  {
    assert !InClass(t[c], Space);
    SpanUnique(t, k, c, Space);
  }

  /** The match whose label is at `p`, if there is one. */
  function MatchAt(t: string, pat: Pattern, p: nat): (r: Option<Located>)
    requires p <= |t|
    ensures r.Some? ==> r.value.at == p && IsMatch(t, pat, p, r.value.colon, r.value.start, r.value.end)
    ensures r.Some? ==> forall c: nat, s: nat, e: nat :: IsMatch(t, pat, p, c, s, e) ==> s <= r.value.start
    ensures r.None? ==> forall c: nat, s: nat, e: nat :: !IsMatch(t, pat, p, c, s, e)
  {
    if !StartsAt(t, p, pat.labelText) then None
    else
      var k := p + |pat.labelText|;
      var c := Span(t, k, Space);
      if c == |t| || t[c] != ':' then
        assert forall c': nat, s: nat, e: nat :: !IsMatch(t, pat, p, c', s, e) by {
          forall c': nat, s: nat, e: nat | IsMatch(t, pat, p, c', s, e) ensures false {
            ColonPosition(t, k, c');
          }
        }
        None
      else
        var q := Span(t, c + 1, Space);
        var r := CaptureFrom(t, c + 1, q, pat.capture);
        assert forall c': nat, s: nat, e: nat :: IsMatch(t, pat, p, c', s, e) ==> c' == c && s <= q && !NoCaptureAt(t, s, pat.capture) by {
          forall c': nat, s: nat, e: nat | IsMatch(t, pat, p, c', s, e) ensures c' == c && s <= q && !NoCaptureAt(t, s, pat.capture) {
            ColonPosition(t, k, c');
            SpaceRunBound(t, c + 1, s);
          }
        }
        match r
        case None => None
        case Some((s, e)) => Some(Located(p, c, s, e))
  }

  /** Where no match has its label at `p`, every match from `p` on has it later. */
  lemma NoMatchAtShift(t: string, pat: Pattern, p: nat)
    requires p <= |t| && MatchAt(t, pat, p).None?
    ensures forall p': nat, c: nat, s: nat, e: nat :: p <= p' && IsMatch(t, pat, p', c, s, e) ==> p + 1 <= p'
  {
  }

  /** The leftmost match whose label is at `p` or later. */
  function FindMatch(t: string, pat: Pattern, p: nat): (r: Option<Located>)
    requires p <= |t|
    ensures r.Some? ==> p <= r.value.at && IsMatch(t, pat, r.value.at, r.value.colon, r.value.start, r.value.end)
    ensures r.Some? ==> forall p': nat, c: nat, s: nat, e: nat :: p <= p' && IsMatch(t, pat, p', c, s, e) ==>
                          r.value.at < p' || (r.value.at == p' && s <= r.value.start)
    ensures r.None? ==> forall p': nat, c: nat, s: nat, e: nat :: p <= p' ==> !IsMatch(t, pat, p', c, s, e)
    decreases |t| - p
  {
    match MatchAt(t, pat, p)
    case Some(m) => Some(m)
    case None =>
      NoMatchAtShift(t, pat, p);
      if p == |t| then None else FindMatch(t, pat, p + 1)
  }

  /** `text.match(regex)`: the match it reports, or none. */
  function Match(t: string, pat: Pattern): (r: Option<Located>)
    ensures r.Some? ==> IsFirstMatch(t, pat, r.value)
    ensures r.None? <==> NoMatch(t, pat)
  {
    FindMatch(t, pat, 0)
  }

  /** `match[1]`: the text of the capture group of the reported match. */
  function Capture(t: string, pat: Pattern): (r: Option<string>)
    ensures r.None? <==> NoMatch(t, pat)
    ensures r.Some? ==> exists m :: IsFirstMatch(t, pat, m) && r.value == t[m.start..m.end]
  {
    match Match(t, pat)
    case None => None
    case Some(m) => Some(t[m.start..m.end])
  }

  /** The reported match is determined: two matches that both satisfy `IsFirstMatch` are equal. */
  lemma {:induction false} FirstMatchUnique(t: string, pat: Pattern, m1: Located, m2: Located)
    requires IsFirstMatch(t, pat, m1) && IsFirstMatch(t, pat, m2)
    ensures m1 == m2
  {
    assert m1.at == m2.at && m1.start == m2.start;
    var k := m1.at + |pat.labelText|;
    ColonPosition(t, k, m1.colon);
    ColonPosition(t, k, m2.colon);
    var _ := CaptureEnd(t, m1.start, pat.capture);
  }
}
