# DeepL translation plugin for OpenVoiceOS — a Dafny model

This project models the logic of `ovos_translate_plugin_deepl`, the plugin that
lets an OpenVoiceOS assistant translate text and detect its language through
the DeepL service. Three modules:

- `Wrappers` (`wrappers.dfy`): `Option` for Python's `None`, `Result` for a
  value or an exception that leaves the plugin.
- `PyStr` (`pystr.dfy`): the Python built-ins the plugin relies on —
  `str.upper`, `str.lower`, `str.split("-")` (with its inverse `join`),
  `str.strip()` and `reversed`.
- `DeepL` (`deepl.dfy`): the plugin itself.
  - Language-code resolution: `Candidates`, `FirstIn` and `Resolve`, and the
    imperative `DeepLTranslator.GetLangcode` proved equal to `Resolve`.
  - The `translate` orchestration: `TranslateRequest` gives the client call
    `translate` makes, or none. `Normalise` shapes the client's answer.
    `DeepLTranslator.Translate` is proved to do exactly that.
  - Detection: `DetectedLanguage` and `DeepLDetector.Detect`.
  - Supported translations: `Remaining` and `DeepLTranslator.SupportedTranslations`.

The DeepL client is a function from the arguments of one `translate_text` call
(`Request`) to what that call returns or raises (`Reply`). Each object holds it
as its `client`. The catalog is what `available_languages` reports: the codes
DeepL accepts as translation targets. It is fetched anew on each use, so it is a
`set<string>` parameter of every operation that reads it. The configured
`default_language` and `internal_language` are constructor arguments.

The model follows the code as written:

- Resolution tries only the upper-cased tag and its dash-separated parts, last
  part first. There is no search of the catalog for members that start or end
  with a bare tag.
- The filter on the parts runs before the list is extended, so it drops only
  parts equal to the whole tag. A repeated part is tried twice
  (`RepeatedPartKept`); the result is the same.
- Source and target tags are both resolved against the one target catalog.
- The elements of a list result are returned as they are, not stripped.
- An empty list of texts gives the string `""`, not an empty list.
- `translate` resolves its tags, which reads the catalog from DeepL, before it
  checks for empty text. Only `translate_text` is skipped on the early return.

## Model

| member | source | states |
|---|---|---|
| `PyStr.Upper` | ovos_translate_plugin_deepl/__init__.py:34 | `code.upper()` keeps the length, turns each lower-case letter into its capital and leaves every other character as it is |
| `PyStr.Lower` | ovos_translate_plugin_deepl/__init__.py:138 | `.lower()` keeps the length, turns each capital into its lower-case letter and leaves every other character as it is |
| `PyStr.Split` | ovos_translate_plugin_deepl/__init__.py:37 | `code.split("-")` gives at least one part; no part holds a dash; joining the parts with dashes gives the code back |
| `PyStr.SplitJoin` | ovos_translate_plugin_deepl/__init__.py:37 | splitting undoes joining whenever no part holds the dash, so the parts are exactly the dash-free pieces of the code |
| `PyStr.Reversed` | ovos_translate_plugin_deepl/__init__.py:37 | `reversed(...)` keeps the length and puts element k at position n-1-k |
| `PyStr.Keep` | ovos_translate_plugin_deepl/__init__.py:37 | the comprehension's filter keeps exactly the elements not in the excluded list, each as many times as it occurs |
| `PyStr.Strip` | ovos_translate_plugin_deepl/__init__.py:79 | `.strip()` returns the piece of the text after its leading white space; everything cut off is white space; the piece neither starts nor ends with white space |
| `DeepL.Falsy` | ovos_translate_plugin_deepl/__init__.py:61-63 | Python's `not x` on a language argument: true for `None` and the empty string, false for any other string |
| `DeepL.IsEmptyInput` | ovos_translate_plugin_deepl/__init__.py:69 | Python's `not text`: true exactly when the string or the list has length zero |
| `DeepL.Candidates` | ovos_translate_plugin_deepl/__init__.py:34-37 | the candidate list starts with the upper-cased tag; every later candidate is a dash-separated part different from the tag, and every such part is among them |
| `DeepL.FirstIn` | ovos_translate_plugin_deepl/__init__.py:39-42 | the loop's value is a listed code that is in the catalog, and it is `None` exactly when no listed code is in the catalog |
| `DeepL.FirstInAt` | ovos_translate_plugin_deepl/__init__.py:39-41 | the loop returns the earliest listed code that is in the catalog |
| `DeepL.Resolve` | ovos_translate_plugin_deepl/__init__.py:31-42 | `get_langcode(None)` is `None`; any code returned is in the catalog and is one of the candidates of the upper-cased tag |
| `DeepL.CandidatesShape` | ovos_translate_plugin_deepl/__init__.py:34-37 | a tag without a dash is its only candidate; a tag with dashes is tried first and then each of its parts, last part first |
| `DeepL.TwoPartCandidates` | ovos_translate_plugin_deepl/__init__.py:35-37 | for a tag `A-B` the candidates are `A-B`, `B`, `A` in that order |
| `DeepL.RepeatedPartKept` | ovos_translate_plugin_deepl/__init__.py:37 | only parts equal to the whole tag are skipped: "PT-PT" is tried as "PT-PT", "PT", "PT" |
| `DeepL.ResolveExact` | ovos_translate_plugin_deepl/__init__.py:34-41 | a tag whose upper-cased form is in the catalog resolves to exactly that form |
| `DeepL.ResolveFirstCandidate` | ovos_translate_plugin_deepl/__init__.py:36-42 | a tag resolves to the earliest of its candidates that the catalog holds |
| `DeepL.ResolveIgnoresCase` | ovos_translate_plugin_deepl/__init__.py:34 | the result depends only on the upper-cased tag: a tag and its upper-cased and lower-cased spellings resolve alike |
| `DeepL.ResolveLastPart` | ovos_translate_plugin_deepl/__init__.py:36-41 | a tag that upper-cases to `A-B`, with `B` in the catalog and `A-B` not, resolves to `B` |
| `DeepL.ResolveSeFi` | ovos_translate_plugin_deepl/__init__.py:23 | "se-fi" resolves to "FI" when the catalog holds "FI" and not "SE-FI" |
| `DeepL.ResolvePtBr` | ovos_translate_plugin_deepl/__init__.py:35-41 | for "pt-br", "BR" wins over "PT" when the catalog holds both and not "PT-BR" |
| `DeepL.CollapseEnglish` | ovos_translate_plugin_deepl/__init__.py:66-67 | a source of "EN-GB" or "EN-US" becomes "EN"; any other source is kept |
| `DeepL.TranslateRequest` | ovos_translate_plugin_deepl/__init__.py:61-74 | no client call is made exactly when the text is empty or the target (the internal language when none is given) does not resolve to a non-empty code; a call sends the text unchanged; its target is the resolved given target, or the resolved internal language when none is given, and is a catalog code; its source is the resolved given source, or the resolved default language when boost is on and none is given, with "EN-GB" and "EN-US" sent as "EN" |
| `DeepL.BoostUsesDefaultSource` | ovos_translate_plugin_deepl/__init__.py:61-62 | with boost on and no source, `translate` makes the same call as with boost off and the default language given as source |
| `DeepL.SourceIgnoresDefault` | ovos_translate_plugin_deepl/__init__.py:61-67 | with boost off, or with a source given, the call does not depend on the default language |
| `DeepL.MissingTargetIsInternal` | ovos_translate_plugin_deepl/__init__.py:63 | an empty or absent target makes the same call as asking for the internal language |
| `DeepL.Normalise` | ovos_translate_plugin_deepl/__init__.py:76-79 | a list result becomes the list of its texts, same length and order, unstripped; a single result becomes its text stripped; a client exception propagates |
| `DeepL.NormaliseVerbatim` | tests/unittests/lang_translate_tests.py:27-30 | a text the client hands back without surrounding white space is returned unchanged |
| `DeepL.DetectRequest` | ovos_translate_plugin_deepl/__init__.py:136-137 | detection sends the text as one string to the fixed target "en-us", with no source language, so DeepL detects it |
| `DeepL.DetectedLanguage` | ovos_translate_plugin_deepl/__init__.py:136-138 | the detected language is returned lower-cased and non-empty, with the same upper-cased form; an empty detection gives the default language; a list reply or a client exception is an error |
| `DeepL.DetectGerman` | tests/unittests/lang_detect_tests.py:17-19 | DeepL reporting "DE" makes `detect` return "de" |
| `DeepL.Remaining` | ovos_translate_plugin_deepl/__init__.py:108-114 | the result is within the catalog and never holds the language; it is empty when the language is unresolved; otherwise it is every other catalog code, one fewer than the catalog |
| `DeepL.SupportedExcludesTag` | ovos_translate_plugin_deepl/__init__.py:108-114 | asking about a tag whose upper-cased form is in the catalog gives the catalog without that code |
| `DeepL.SupportedForGermanText` | ovos_translate_plugin_deepl/__init__.py:105-114 | for a text DeepL detects as "DE", with "DE" in the catalog, the answer is the catalog without "DE" |
| `DeepL.DeepLTranslator.constructor` | ovos_translate_plugin_deepl/__init__.py:10-15 | keeps the client and the configured languages, and turns boost off |
| `DeepL.DeepLTranslator.GetLangcode` | ovos_translate_plugin_deepl/__init__.py:17-42 | the loop over the candidate list returns `Resolve`'s value: a catalog code, and `None` exactly when no candidate is in the catalog |
| `DeepL.DeepLTranslator.Translate` | ovos_translate_plugin_deepl/__init__.py:45-79 | the client call made is the one `TranslateRequest` gives; with none made the result is ""; otherwise it is the client's answer normalised |
| `DeepL.DeepLTranslator.SupportedTranslations` | ovos_translate_plugin_deepl/__init__.py:92-114 | with empty text, the catalog minus the resolved `lang`; with text, the catalog minus the resolved detected language, or the detection's error; always within the catalog |
| `DeepL.DeepLDetector.constructor` | ovos_translate_plugin_deepl/__init__.py:120-124 | keeps the client and the default language |
| `DeepL.DeepLDetector.Detect` | ovos_translate_plugin_deepl/__init__.py:126-138 | returns what `DetectedLanguage` gives for the client's reply: the default language or a non-empty lower-case tag |

## Left out

- The DeepL client: constructing `Translator`, the network calls behind
  `translate_text` and `get_target_languages`, and the quality of translations.
  The client is a function parameter; the catalog is a set parameter.
- API-key handling in both constructors. It only feeds the client.
- The plugin framework base classes. They supply `default_language` and
  `internal_language` from configuration; here these are constructor arguments.
- `available_languages` of both classes: the catalog set stands for their value.
- `DeepL.DeepLTranslator.SupportedTranslations`: the catalog is read twice, once
  inside `get_langcode` and once by `supported_translations`. The model gives
  both reads the same set. So the check that the resolved code is in the
  catalog never fails here.
- `DeepL.DeepLTranslator.Translate`: the catalog is read twice, once for the
  target and once for the source, each inside `get_langcode`. The model gives
  both reads the same set.
- `PyStr.Keep`: the contract gives membership and multiplicity, not order.
  For its one use, `DeepL.CandidatesShape` states the candidate order exactly.
- `DeepL.DeepLTranslator.SupportedTranslations`: the detector is built afresh
  from the same API key. The model gives it the translator's client and default
  language.
- `PyStr.Upper`, `PyStr.Lower`: only ASCII letters change case. Python's Unicode
  case mapping, which can change the length, is not modelled.
- `PyStr.Strip`: Unicode white space is modelled as the code points Python's
  `str.isspace` accepts, listed explicitly.
- The detected language is a string, never `None`. So a missing detection is
  the empty string, and the `None` crash of `.lower()` is not modelled.
- Package metadata (`setup.py`).
