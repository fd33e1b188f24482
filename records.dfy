/** The record `parseTransactions` builds for one section (`transactions.service.ts` lines 47-76):
    fields extracted from the translated section, `originalText` kept from the untranslated one. */
module Records {
  import opened Wrappers
  import opened JsText
  import opened LabelPattern
  import opened JsSplit
  import opened Translation
  import opened Extractors

  /** `TransactionDto`. `D` is the type of the values `new Date(...)` produces. */
  datatype Transaction<D> = Transaction(
    serialNumber: Option<string>,
    documentNumber: Option<string>,
    executionDate: Option<D>,
    presentationDate: Option<D>,
    registrationDate: Option<D>,
    nature: Option<string>,
    executants: seq<string>,
    claimants: seq<string>,
    volumeNumber: Option<string>,
    pageNumber: Option<string>,
    considerationValue: Option<JsNumber>,
    marketValue: Option<JsNumber>,
    prNumber: Option<string>,
    documentRemarks: Option<string>,
    propertyType: Option<string>,
    propertyExtent: Option<string>,
    village: Option<string>,
    street: Option<string>,
    surveyNumbers: seq<string>,
    plotNumber: Option<string>,
    scheduleRemarks: Option<string>,
    originalText: string)

  // The label patterns of lines 51-71, one per field.
  const SerialNumberPattern: Pattern := Pattern("Sr. No.", Greedy(NonSpace))
  const DocumentNumberPattern: Pattern := Pattern("Document No.", Greedy(NonSpace))
  const ExecutionDatePattern: Pattern := Pattern("Execution Date", Greedy(NonSpace))
  const PresentationDatePattern: Pattern := Pattern("Presentation Date", Greedy(NonSpace))
  const RegistrationDatePattern: Pattern := Pattern("Registration Date", Greedy(NonSpace))
  const NaturePattern: Pattern := Pattern("Nature", Greedy(NonLineTerminator))
  const ExecutantsPattern: Pattern := Pattern("Executants", LazyUntil("Claimants"))
  const ClaimantsPattern: Pattern := Pattern("Claimants", LazyUntil("Volume"))
  const VolumeNumberPattern: Pattern := Pattern("Volume No.", Greedy(NonSpace))
  const PageNumberPattern: Pattern := Pattern("Page No.", Greedy(NonSpace))
  const ConsiderationValuePattern: Pattern := Pattern("Consideration Value", Greedy(DigitOrComma))
  const MarketValuePattern: Pattern := Pattern("Market Value", Greedy(DigitOrComma))
  const PrNumberPattern: Pattern := Pattern("PR Number", Greedy(NonSpace))
  const DocumentRemarksPattern: Pattern := Pattern("Document Remarks", LazyUntil("Property Type"))
  const PropertyTypePattern: Pattern := Pattern("Property Type", Greedy(NonLineTerminator))
  const PropertyExtentPattern: Pattern := Pattern("Property Extent", Greedy(NonLineTerminator))
  const VillagePattern: Pattern := Pattern("Village", Greedy(NonLineTerminator))
  const StreetPattern: Pattern := Pattern("Street", Greedy(NonLineTerminator))
  const PlotNumberPattern: Pattern := Pattern("Plot No.", Greedy(NonSpace))
  const ScheduleRemarksPattern: Pattern := Pattern("Schedule Remarks", Greedy(AnyChar))

  // What each extractor leaves in a field, stated through the pattern's first match alone.

  /** A text field: absent exactly when the pattern does not match, otherwise the capture trimmed. */
  ghost predicate FieldFrom(t: string, pat: Pattern, v: Option<string>) {
    && (v.None? <==> NoMatch(t, pat))
    && (v.Some? ==> Capture(t, pat).Some? && IsTrimOf(Capture(t, pat).value, v.value))
  }

  /** A date field: absent exactly when the pattern does not match, otherwise the date made from
      the trimmed capture. */
  ghost predicate DateFrom<D>(t: string, pat: Pattern, parseDate: string -> D, v: Option<D>) {
    && (v.None? <==> NoMatch(t, pat))
    && (v.Some? ==> Capture(t, pat).Some? && v.value == parseDate(Trim(Capture(t, pat).value)))
  }

  /** A number field: absent exactly when the pattern does not match, `NaN` for a capture without
      a digit, otherwise the number its digits spell. */
  ghost predicate NumberFrom(t: string, pat: Pattern, v: Option<JsNumber>) {
    && (v.None? <==> NoMatch(t, pat))
    && (v.Some? ==>
          && Capture(t, pat).Some?
          && AllDigits(StripCommas(Capture(t, pat).value))
          && (HasDigit(Capture(t, pat).value) ==> v.value == Num(DecimalValue(StripCommas(Capture(t, pat).value))))
          && (!HasDigit(Capture(t, pat).value) ==> v.value == NaN))
  }

  /** A names field: empty when the pattern does not match, otherwise the non-blank pieces of the
      trimmed capture cut at its ordinals. */
  ghost predicate NamesFrom(t: string, pat: Pattern, v: seq<string>) {
    && (NoMatch(t, pat) ==> v == [])
    && (Capture(t, pat).Some? ==> v == KeepNonBlank(Split(Trim(Capture(t, pat).value), Ordinal)))
  }

  /** The survey numbers: empty when "Survey No." does not match, otherwise one token more than
      the capture has commas, each digits and slashes, joining back to the capture. */
  ghost predicate SurveyNumbersFrom(t: string, v: seq<string>) {
    && (NoMatch(t, SurveyNumberPattern) ==> v == [])
    && (Capture(t, SurveyNumberPattern).Some? ==>
          var c := Capture(t, SurveyNumberPattern).value;
          && |v| == CountChar(c, ',') + 1
          && (forall i :: 0 <= i < |v| ==> DigitsAndSlashes(v[i]))
          && Join(v, ",") == c)
  }

  lemma ExtractFieldFrom(t: string, pat: Pattern)
    ensures FieldFrom(t, pat, ExtractField(t, pat))
  {
  }

  lemma ExtractDateFrom<D>(t: string, pat: Pattern, parseDate: string -> D)
    ensures DateFrom(t, pat, parseDate, ExtractDate(t, pat, parseDate))
  {
  }

  lemma ExtractNumberFrom(t: string, pat: Pattern)
    requires pat.capture == Greedy(DigitOrComma)
    ensures NumberFrom(t, pat, ExtractNumber(t, pat))
  {
  }

  lemma ExtractNamesFrom(t: string, pat: Pattern)
    ensures NamesFrom(t, pat, ExtractNames(t, pat))
  {
    if Capture(t, pat).Some? {
      NamesBetweenOrdinals(t, pat, Capture(t, pat).value);
    }
  }

  lemma ExtractSurveyNumbersFrom(t: string)
    ensures SurveyNumbersFrom(t, ExtractSurveyNumbers(t))
  {
  }

  /** The object literal of lines 50-73: every field extracted from `working`, the text kept as
      `original`. Each field depends on `working` alone, so a field that is absent never keeps
      another from being filled. */
  function ExtractRecord<D>(working: string, original: string, parseDate: string -> D): (r: Transaction<D>)
    ensures r.originalText == original
    ensures FieldFrom(working, SerialNumberPattern, r.serialNumber)
    ensures FieldFrom(working, DocumentNumberPattern, r.documentNumber)
    ensures DateFrom(working, ExecutionDatePattern, parseDate, r.executionDate)
    ensures DateFrom(working, PresentationDatePattern, parseDate, r.presentationDate)
    ensures DateFrom(working, RegistrationDatePattern, parseDate, r.registrationDate)
    ensures FieldFrom(working, NaturePattern, r.nature)
    ensures NamesFrom(working, ExecutantsPattern, r.executants)
    ensures NamesFrom(working, ClaimantsPattern, r.claimants)
    ensures FieldFrom(working, VolumeNumberPattern, r.volumeNumber)
    ensures FieldFrom(working, PageNumberPattern, r.pageNumber)
    ensures NumberFrom(working, ConsiderationValuePattern, r.considerationValue)
    ensures NumberFrom(working, MarketValuePattern, r.marketValue)
    ensures FieldFrom(working, PrNumberPattern, r.prNumber)
    ensures FieldFrom(working, DocumentRemarksPattern, r.documentRemarks)
    ensures FieldFrom(working, PropertyTypePattern, r.propertyType)
    ensures FieldFrom(working, PropertyExtentPattern, r.propertyExtent)
    ensures FieldFrom(working, VillagePattern, r.village)
    ensures FieldFrom(working, StreetPattern, r.street)
    ensures SurveyNumbersFrom(working, r.surveyNumbers)
    ensures FieldFrom(working, PlotNumberPattern, r.plotNumber)
    ensures FieldFrom(working, ScheduleRemarksPattern, r.scheduleRemarks)
    ensures r.serialNumber.None? <==> NoMatch(working, SerialNumberPattern)
    ensures r.executionDate.None? <==> NoMatch(working, ExecutionDatePattern)
    ensures r.considerationValue.None? <==> NoMatch(working, ConsiderationValuePattern)
    ensures forall i :: 0 <= i < |r.executants| ==> !AllSpace(r.executants[i]) && NoOrdinal(r.executants[i])
    ensures forall i :: 0 <= i < |r.claimants| ==> !AllSpace(r.claimants[i]) && NoOrdinal(r.claimants[i])
    ensures forall i :: 0 <= i < |r.surveyNumbers| ==> DigitsAndSlashes(r.surveyNumbers[i])
  {
    ExtractFieldFrom(working, SerialNumberPattern);
    ExtractFieldFrom(working, DocumentNumberPattern);
    ExtractDateFrom(working, ExecutionDatePattern, parseDate);
    ExtractDateFrom(working, PresentationDatePattern, parseDate);
    ExtractDateFrom(working, RegistrationDatePattern, parseDate);
    ExtractFieldFrom(working, NaturePattern);
    ExtractNamesFrom(working, ExecutantsPattern);
    ExtractNamesFrom(working, ClaimantsPattern);
    ExtractFieldFrom(working, VolumeNumberPattern);
    ExtractFieldFrom(working, PageNumberPattern);
    ExtractNumberFrom(working, ConsiderationValuePattern);
    ExtractNumberFrom(working, MarketValuePattern);
    ExtractFieldFrom(working, PrNumberPattern);
    ExtractFieldFrom(working, DocumentRemarksPattern);
    ExtractFieldFrom(working, PropertyTypePattern);
    ExtractFieldFrom(working, PropertyExtentPattern);
    ExtractFieldFrom(working, VillagePattern);
    ExtractFieldFrom(working, StreetPattern);
    ExtractSurveyNumbersFrom(working);
    ExtractFieldFrom(working, PlotNumberPattern);
    ExtractFieldFrom(working, ScheduleRemarksPattern);
    Transaction(
      ExtractField(working, SerialNumberPattern),
      ExtractField(working, DocumentNumberPattern),
      ExtractDate(working, ExecutionDatePattern, parseDate),
      ExtractDate(working, PresentationDatePattern, parseDate),
      ExtractDate(working, RegistrationDatePattern, parseDate),
      ExtractField(working, NaturePattern),
      ExtractNames(working, ExecutantsPattern),
      ExtractNames(working, ClaimantsPattern),
      ExtractField(working, VolumeNumberPattern),
      ExtractField(working, PageNumberPattern),
      ExtractNumber(working, ConsiderationValuePattern),
      ExtractNumber(working, MarketValuePattern),
      ExtractField(working, PrNumberPattern),
      ExtractField(working, DocumentRemarksPattern),
      ExtractField(working, PropertyTypePattern),
      ExtractField(working, PropertyExtentPattern),
      ExtractField(working, VillagePattern),
      ExtractField(working, StreetPattern),
      ExtractSurveyNumbers(working),
      ExtractField(working, PlotNumberPattern),
      ExtractField(working, ScheduleRemarksPattern),
      original)
  }

  /** One iteration of the loop of lines 47-76: translate the section, then extract from the
      translation while keeping the section itself as the audit trail. */
  function BuildRecord<D>(service: TranslateRequest -> Option<string>, parseDate: string -> D, section: string): (r: Transaction<D>)
    ensures r.originalText == section
  {
    ExtractRecord(TranslateText(service, section), section, parseDate)
  }

  /** The record is extracted from the translation when the service answers, and from the section
      itself when it fails. */
  lemma BuildRecordCases<D>(service: TranslateRequest -> Option<string>, parseDate: string -> D, section: string)
    ensures service(RequestFor(section, "en")).None? ==> BuildRecord(service, parseDate, section) == ExtractRecord(section, section, parseDate)
    ensures service(RequestFor(section, "en")).Some? ==>
              BuildRecord(service, parseDate, section) == ExtractRecord(service(RequestFor(section, "en")).value, section, parseDate)
  {
  }

  /** A section's record depends on the translation outcome of that section only: services that
      agree on its request give it the same record, whatever they do for sibling sections. */
  lemma RecordIsolated<D>(s1: TranslateRequest -> Option<string>, s2: TranslateRequest -> Option<string>,
                           parseDate: string -> D, section: string)
    requires s1(RequestFor(section, "en")) == s2(RequestFor(section, "en"))
    ensures BuildRecord(s1, parseDate, section) == BuildRecord(s2, parseDate, section)
  {
  }
}
