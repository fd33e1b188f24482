/** `parseTransactions`, `transactions.service.ts` lines 40-79: segment the text, then one record
    per non-blank section, in order. */
module Transactions {
  import opened Wrappers
  import opened JsText
  import opened Segmenter
  import opened Translation
  import opened Records

  /** `build` applied to every section, in order. */
  function MapSections<T>(build: string -> T, sections: seq<string>): (r: seq<T>)
    ensures |r| == |sections|
  {
    if sections == [] then []
    else MapSections(build, sections[..|sections| - 1]) + [build(sections[|sections| - 1])]
  }

  /** The `k`-th result is `build` of the `k`-th section. */
  lemma {:induction false} MapSectionsAt<T>(build: string -> T, sections: seq<string>, k: nat)
    requires k < |sections|
    ensures MapSections(build, sections)[k] == build(sections[k])
  {
    var n := |sections| - 1;
    if k < n {
      MapSectionsAt(build, sections[..n], k);
    }
  }

  /** Mapping over one more section adds that section's result at the end. */
  lemma MapSectionsSnoc<T>(build: string -> T, sections: seq<string>, i: nat)
    requires i < |sections|
    ensures MapSections(build, sections[..i + 1]) == MapSections(build, sections[..i]) + [build(sections[i])]
  {
    assert sections[..i + 1][..i] == sections[..i];
  }

  lemma WholeSlice<T>(s: seq<T>)
    ensures s[..|s|] == s
  {
  }

  /** The loop body of lines 47-76 as a function of the section. */
  function Builder<D>(service: TranslateRequest -> Option<string>, parseDate: string -> D): string -> Transaction<D> {
    section => BuildRecord(service, parseDate, section)
  }

  /** `parseTransactions`: segment the text, then push one record per kept section, in order. */
  method ParseTransactions<D>(text: string, service: TranslateRequest -> Option<string>, parseDate: string -> D)
    returns (transactions: seq<Transaction<D>>)
    ensures transactions == MapSections(Builder(service, parseDate), Sections(text))
  {
    var transactionSections := Sections(text);
    transactions := [];
    for i := 0 to |transactionSections|
      invariant transactions == MapSections(Builder(service, parseDate), transactionSections[..i])
    {
      var section := transactionSections[i];
      var translatedSection := TranslateText(service, section);
      var transaction := ExtractRecord(translatedSection, section, parseDate);
      MapSectionsSnoc(Builder(service, parseDate), transactionSections, i);
      assert transaction == Builder(service, parseDate)(section);
      transactions := transactions + [transaction];
    }
    WholeSlice(transactionSections);
  }

  /** The parsed records are one per non-blank section, in order, each keeping its own section as
      `originalText`. */
  lemma ParsedRecordsKeepSections<D>(text: string, service: TranslateRequest -> Option<string>, parseDate: string -> D)
    ensures |MapSections(Builder(service, parseDate), Sections(text))| == |Sections(text)|
    ensures forall i :: 0 <= i < |Sections(text)| ==>
              MapSections(Builder(service, parseDate), Sections(text))[i].originalText == Sections(text)[i]
              && !AllSpace(MapSections(Builder(service, parseDate), Sections(text))[i].originalText)
  {
    var sections := Sections(text);
    forall i | 0 <= i < |sections|
      ensures MapSections(Builder(service, parseDate), sections)[i].originalText == sections[i]
    {
      MapSectionsAt(Builder(service, parseDate), sections, i);
    }
  }
}
