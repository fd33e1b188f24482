/** Section segmentation, `transactions.service.ts` lines 43-45:
    `text.split(/(?=\nSr\. No\.|வ. எண்)/).filter(section => section.trim())`. */
module Segmenter {
  import opened JsText
  import opened JsSplit

  function Concat(ss: seq<string>): string {
    if ss == [] then [] else ss[0] + Concat(ss[1..])
  }

  /** The pieces of the lookahead split, before blank ones are dropped. */
  function RawSections(text: string): (r: seq<string>)
    ensures |r| >= 1
  {
    Split(text, MarkerAhead)
  }

  /** The sections `parseTransactions` iterates over. */
  function Sections(text: string): (r: seq<string>)
    ensures forall i :: 0 <= i < |r| ==> !AllSpace(r[i])
    ensures forall x :: x in r <==> x in RawSections(text) && !AllSpace(x)
  {
    KeepNonBlank(RawSections(text))
  }

  function MarkerLength(s: string, a: nat): nat {
    if StartsAt(s, a, EnglishMarker) then |EnglishMarker| else 6
  }

  /** Two markers never overlap: none starts inside another. */
  lemma MarkerNoOverlap(s: string, a: nat, b: nat)
    requires MarkerAt(s, a) && MarkerAt(s, b) && a < b
    ensures a + MarkerLength(s, a) <= b
  {
    // What a marker at `b` looks like at its first and third characters.
    if StartsAt(s, b, EnglishMarker) {
      assert s[b] == s[b..b + 8][0];
    } else {
      assert s[b + 2] == s[b + 2..b + 6][0];
    }
    assert s[b] == '\n' || (s[b] == '\U{0BB5}' && s[b + 2] == ' ');
    // No character inside a marker at `a` can begin another.
    if StartsAt(s, a, EnglishMarker) {
      forall x | a < x < a + 8 ensures s[x] != '\n' && s[x] != '\U{0BB5}' {
        assert s[a..a + 8][x - a] == s[x];
      }
    } else {
      forall x | a + 1 < x < a + 6 ensures s[x] != '\n' && s[x] != '\U{0BB5}' {
        assert s[a + 2..a + 6][x - a - 2] == s[x];
      }
      assert s[a + 3] == s[a + 2..a + 6][1];
      assert s[a + 1] != '\n' && s[a + 3] != ' ';
    }
  }

  /** A marker lying wholly inside `s[a..c]` is seen at the start of that slice. */
  lemma MarkerInSlice(s: string, a: nat, c: nat)
    requires MarkerAt(s, a) && a + MarkerLength(s, a) <= c <= |s|
    ensures MarkerAt(s[a..c], 0)
  {
    if StartsAt(s, a, EnglishMarker) {
      SliceOfSlice(s, a, c, 0, 8);
    } else {
      SliceOfSlice(s, a, c, 2, 6);
    }
  }

  lemma {:induction false} SplitFromMarkers(s: string, p: nat, q: nat)
    requires p <= q <= |s|
    requires NoCutIn(s, MarkerAhead, p, q)
    ensures forall k :: 1 <= k < |SplitFrom(s, MarkerAhead, p, q)| ==> MarkerAt(SplitFrom(s, MarkerAhead, p, q)[k], 0)
    ensures MarkerAt(s, p) ==> MarkerAt(SplitFrom(s, MarkerAhead, p, q)[0], 0)
    decreases |s| - q, if p == q then 0 else 1
  {
    if q == |s| {
      if MarkerAt(s, p) {
        MarkerInSlice(s, p, |s|);
        assert s[p..|s|] == s[p..];
      }
    } else {
      match SepEnd(s, q, MarkerAhead)
      case None => SplitFromMarkers(s, p, q + 1);
      case Some(e) =>
        if e == p {
          SplitFromMarkers(s, p, q + 1);
        } else {
          SplitFromMarkers(s, e, e);
          if MarkerAt(s, p) {
            MarkerNoOverlap(s, p, q);
            MarkerInSlice(s, p, q);
          }
        }
    }
  }

  /** Every piece after the first begins with a marker, and no piece has a marker anywhere past its
      first character: the split cuts exactly before each marker not at position 0. */
  lemma SplitCutsAtMarkers(text: string)
    ensures forall k :: 1 <= k < |RawSections(text)| ==> MarkerAt(RawSections(text)[k], 0)
    ensures forall k, i :: 0 <= k < |RawSections(text)| && 0 < i < |RawSections(text)[k]| ==>
              !MarkerAt(RawSections(text)[k], i)
  {
    SplitFromMarkers(text, 0, 0);
    var r := RawSections(text);
    forall k, i | 0 <= k < |r| && 0 < i < |r[k]| ensures !MarkerAt(r[k], i) {
      assert Clean(r[k], MarkerAhead);
      assert MarkerAt(r[k], i) ==> SepEnd(r[k], i, MarkerAhead).Some?;
    }
  }

  lemma {:induction false} MarkerSepsEmpty(s: string, p: nat, q: nat)
    requires p <= q <= |s|
    requires NoCutIn(s, MarkerAhead, p, q)
    ensures forall k :: 0 <= k < |SepsFrom(s, MarkerAhead, p, q)| ==> SepsFrom(s, MarkerAhead, p, q)[k] == []
    decreases |s| - q, if p == q then 0 else 1
  {
    if q < |s| {
      match SepEnd(s, q, MarkerAhead)
      case None => MarkerSepsEmpty(s, p, q + 1);
      case Some(e) =>
        if e == p {
          MarkerSepsEmpty(s, p, q + 1);
        } else {
          MarkerSepsEmpty(s, e, e);
        }
    }
  }

  lemma {:induction false} WeaveEmptySeps(pieces: seq<string>, seps: seq<string>)
    requires |pieces| == |seps| + 1
    requires forall k :: 0 <= k < |seps| ==> seps[k] == []
    ensures Weave(pieces, seps) == Concat(pieces)
  {
    if seps == [] {
      assert Concat(pieces[1..]) == [];
    } else {
      WeaveEmptySeps(pieces[1..], seps[1..]);
    }
  }

  /** Segmentation loses nothing: the raw pieces, concatenated in order, are the text. */
  lemma SplitLosesNothing(text: string)
    ensures Concat(RawSections(text)) == text
  {
    SplitWeave(text, MarkerAhead);
    MarkerSepsEmpty(text, 0, 0);
    WeaveEmptySeps(RawSections(text), Separators(text, MarkerAhead));
  }

  lemma {:induction false} SplitFromNoMarker(s: string, q: nat)
    requires q <= |s|
    requires forall x :: 0 < x < |s| ==> !MarkerAt(s, x)
    ensures NoCutIn(s, MarkerAhead, 0, q)
    ensures SplitFrom(s, MarkerAhead, 0, q) == [s]
    decreases |s| - q
  {
    if q == |s| {
      assert s[0..] == s;
    } else {
      SplitFromNoMarker(s, q + 1);
    }
  }

  /** A text with no marker after its first character is one raw piece; it is one section when it
      is not blank and none when it is. */
  lemma NoMarkerOneSection(text: string)
    requires forall x :: 0 < x < |text| ==> !MarkerAt(text, x)
    ensures RawSections(text) == [text]
    ensures !AllSpace(text) ==> Sections(text) == [text]
    ensures AllSpace(text) ==> Sections(text) == []
  {
    SplitFromNoMarker(text, 0);
    assert [text][1..] == [];
  }

  /** Text before the first marker is kept: when a marker begins at `k > 0` and none begins
      before it, the first raw piece is `text[..k]`, and it is the first section unless blank. */
  lemma PreambleIsSection(text: string, k: nat)
    requires 0 < k <= |text| && MarkerAt(text, k)
    requires forall x :: 0 <= x < k ==> !MarkerAt(text, x)
    ensures RawSections(text)[0] == text[..k]
    ensures !AllSpace(text[..k]) ==> Sections(text)[0] == text[..k]
  {
    SkipRun(text, MarkerAhead, 0, 0, k);
    SplitFromCut(text, MarkerAhead, 0, k);
  }

  /** A blank document yields no section at all. */
  lemma BlankTextNoSections(text: string)
    requires AllSpace(text)
    ensures Sections(text) == []
  {
    forall x | 0 < x < |text| ensures !MarkerAt(text, x) {
      assert IsSpace(text[x]) && !IsSpace('\U{0BB5}');
      assert x + 8 <= |text| ==> text[x..x + 8][1] == text[x + 1] && IsSpace(text[x + 1]);
    }
    NoMarkerOneSection(text);
  }
}
