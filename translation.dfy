/** `translateText`, `transactions.service.ts` lines 18-38. */
module Translation {
  import opened Wrappers

  /** The JSON body posted to the translation service. */
  datatype TranslateRequest = TranslateRequest(q: string, source: string, target: string, format: string)

  /** The request `translateText` sends for `text`: from Tamil, as plain text. */
  function RequestFor(text: string, targetLanguage: string): (req: TranslateRequest)
    ensures req.q == text && req.source == "ta" && req.target == targetLanguage && req.format == "text"
  {
    TranslateRequest(text, "ta", targetLanguage, "text")
  }

  /** `translateText(text, targetLanguage = 'en')`. `service` is the outcome of the one HTTP call:
      the `translatedText` of the response, or `None` when the call throws (network error,
      non-2xx status). A failure is not retried; the text comes back unchanged. */
  function TranslateText(service: TranslateRequest -> Option<string>, text: string, targetLanguage: string := "en"): (r: string)
    ensures service(RequestFor(text, targetLanguage)).None? ==> r == text
    ensures service(RequestFor(text, targetLanguage)).Some? ==> r == service(RequestFor(text, targetLanguage)).value
  {
    match service(RequestFor(text, targetLanguage))
    case None => text
    case Some(translated) => translated
  }
}
