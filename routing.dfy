/** Which provider translates a text, and the call that results. The two
    HTTP services are abstract: each translate operation returns `None` when
    the service answers without a translation. */
module Routing {
  import opened Wrappers
  import opened Text

  /** The two providers, as seen from the core. A capability listing that
      fails is the empty set. */
  datatype Services = Services(
    deepl: (string, string, string) -> Option<string>,           // (key, text, upper-cased target)
    google: (string, string, string, string) -> Option<string>,  // (key, text, target, source)
    deeplLanguages: string -> set<string>,                       // key -> codes, upper case
    googleLanguages: string -> set<string>)                      // key -> codes

  datatype Provider = DeepL | Google

  /** The plain path of `translate_text`: by token count alone. */
  function PlainRoute(text: string): Provider {
    if IsShort(text) then Google else DeepL
  }

  /** The resume path: Google also when DeepL lacks the upper-cased code;
      otherwise the plain path decides. */
  function ResumeRoute(text: string, lang: string, deeplLangs: set<string>): Provider {
    if IsShort(text) || Upper(lang) !in deeplLangs then Google else PlainRoute(text)
  }

  /** Calling the chosen provider: DeepL gets the upper-cased target and no
      source, Google the target as given and the template language as source. */
  function Call(svc: Services, p: Provider, deeplKey: string, googleKey: string,
                text: string, lang: string, source: string): Option<string>
  {
    match p
    case DeepL => svc.deepl(deeplKey, text, Upper(lang))
    case Google => svc.google(googleKey, text, lang, source)
  }

  /** `translate_text`. */
  function TranslateText(svc: Services, deeplKey: string, googleKey: string,
                         text: string, lang: string, source: string): (r: Option<string>)
    ensures r == Call(svc, PlainRoute(text), deeplKey, googleKey, text, lang, source)
  {
    if IsShort(text) then svc.google(googleKey, text, lang, source)
    else svc.deepl(deeplKey, text, Upper(lang))
  }

  /** The translation step inside the resume loop, which falls through to
      `translate_text` when it does not call Google itself. */
  function ResumeTranslate(svc: Services, deeplKey: string, googleKey: string, deeplLangs: set<string>,
                           text: string, lang: string, source: string): (r: Option<string>)
    ensures r == Call(svc, ResumeRoute(text, lang, deeplLangs), deeplKey, googleKey, text, lang, source)
  {
    if IsShort(text) || Upper(lang) !in deeplLangs then svc.google(googleKey, text, lang, source)
    else TranslateText(svc, deeplKey, googleKey, text, lang, source)
  }

  /** Short text goes to Google on both paths, whatever DeepL supports. */
  lemma ShortTextGoesToGoogle(text: string, lang: string, deeplLangs: set<string>)
    requires TokenCount(text) < 4
    ensures PlainRoute(text) == Google
    ensures ResumeRoute(text, lang, deeplLangs) == Google
  {
  }

  /** Long text goes to DeepL: always on the plain path, and on the resume
      path exactly when DeepL supports the upper-cased code. */
  lemma LongTextRouting(text: string, lang: string, deeplLangs: set<string>)
    requires TokenCount(text) >= 4
    ensures PlainRoute(text) == DeepL
    ensures ResumeRoute(text, lang, deeplLangs) == DeepL <==> Upper(lang) in deeplLangs
  {
  }
}
