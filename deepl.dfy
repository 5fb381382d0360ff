/** The DeepL translation plugin: resolving loose language tags against the
    provider's catalog, translating through the DeepL client, detecting the
    language of a text and listing the languages a text can be translated
    into.

    The DeepL client is the `client` function of each object: it receives
    the arguments of one `translate_text` call and answers with what that
    call returns or raises. The catalog (`available_languages`, the codes
    the client reports as translation targets) is fetched live on every
    call, so it is a parameter of each operation that reads it. */
module DeepL {
  import opened Wrappers
  import opened PyStr

  /* ------------------------------------------------------------ the data */

  /** One `deepl.TextResult`: the translation and the language DeepL
      detected in the input. */
  datatype TextResult = TextResult(text: string, detectedSourceLang: string)

  /** The `text` argument of `translate`: one string or a list of strings. */
  datatype Input = Sentence(text: string) | Sentences(texts: seq<string>)

  /** What `translate` returns: one string or a list of strings. */
  datatype Translation = Str(value: string) | StrList(values: seq<string>)

  /** The arguments of one `translate_text` call. An absent source language
      asks DeepL to detect it. */
  datatype Request = Request(text: Input, sourceLang: Option<string>, targetLang: string)

  /** What a `translate_text` call does: return one result, return a list
      of results, or raise (network, credential or quota failure). */
  datatype Reply =
    | Returned(result: TextResult)
    | ReturnedList(results: seq<TextResult>)
    | Raised(message: string)

  /** The exceptions that leave the plugin. */
  datatype Error =
    | GatewayError(message: string)   // raised by the DeepL client, propagated
    | AttributeError                  // a list has no `detected_source_lang`

  /** The DeepL client, as seen by the plugin. */
  type Client = Request -> Reply

  /** Python's `not x` for a language argument that may be `None`: true
      for `None` and for the empty string, false for any other string. */
  predicate Falsy(code: Option<string>)
    ensures Falsy(code) <==> !(code.Some? && |code.value| > 0)
  {
    code == None || code == Some("")
  }

  /** `len(text)` for the `text` argument of `translate`: the characters
      of one string, or the strings of a list. */
  function Length(text: Input): nat
  {
    match text
    case Sentence(s) => |s|
    case Sentences(ss) => |ss|
  }

  /** Python's `not text` for the `text` argument of `translate`: a string
      or a list is false exactly when its length is zero. */
  predicate IsEmptyInput(text: Input)
    ensures IsEmptyInput(text) <==> Length(text) == 0
  {
    match text
    case Sentence(s) => s == ""
    case Sentences(ss) => ss == []
  }

  /* ------------------------------------------- language-code resolution */

  /** The codes `get_langcode` tries for an upper-cased tag, in order: the
      tag itself, then its dash-separated parts from last to first. The
      comprehension that filters the parts is evaluated before the list is
      extended, so it only drops parts equal to the whole tag. */
  function Candidates(code: string): (c: seq<string>)
    ensures |c| >= 1 && c[0] == code
    ensures forall k :: 1 <= k < |c| ==> c[k] != code && c[k] in Split(code, '-')
    ensures forall p :: p in Split(code, '-') && p != code ==> p in c
  {
    var codes := [code];
    var parts := Split(code, '-');
    var rest := Keep(Reversed(parts), codes);
    assert forall k :: 0 <= k < |rest| ==> rest[k] != code && rest[k] in parts by {
      forall k | 0 <= k < |rest| ensures rest[k] != code && rest[k] in parts {
        assert rest[k] in rest;
        var j :| 0 <= j < |parts| && Reversed(parts)[j] == rest[k];
        assert parts[|parts| - 1 - j] == rest[k];
      }
    }
    assert forall p :: p in parts && p != code ==> p in rest by {
      forall p | p in parts && p != code ensures p in rest {
        var j :| 0 <= j < |parts| && parts[j] == p;
        assert Reversed(parts)[|parts| - 1 - j] == p;
      }
    }
    codes + rest
  }

  /** The first of `codes` that is in the catalog, if any. */
  function FirstIn(codes: seq<string>, catalog: set<string>): (r: Option<string>)
    ensures r.Some? ==> r.value in catalog && r.value in codes
    ensures r.None? <==> forall k :: 0 <= k < |codes| ==> codes[k] !in catalog
  {
    if codes == [] then None
    else if codes[0] in catalog then Some(codes[0])
    else FirstIn(codes[1..], catalog)
  }

  /** The value `get_langcode(code)` returns for a given catalog. */
  function Resolve(code: Option<string>, catalog: set<string>): (r: Option<string>)
    ensures code.None? ==> r.None?
    ensures r.Some? ==> r.value in catalog
    ensures code.Some? && r.Some? ==> r.value in Candidates(Upper(code.value))
  {
    if code.None? then None else FirstIn(Candidates(Upper(code.value)), catalog)
  }

  /** `FirstIn` picks the earliest code that is in the catalog. */
  lemma {:induction false} FirstInAt(codes: seq<string>, catalog: set<string>, i: nat)
    requires i < |codes| && codes[i] in catalog
    requires forall k :: 0 <= k < i ==> codes[k] !in catalog
    ensures FirstIn(codes, catalog) == Some(codes[i])
  {
    if i > 0 {
      FirstInAt(codes[1..], catalog, i - 1);
    }
  }

  /** A tag without a dash is its only candidate; a tag with dashes is
      followed by all of its parts, last part first. */
  lemma CandidatesShape(code: string)
    ensures Candidates(code) ==
      if '-' in code then [code] + Reversed(Split(code, '-')) else [code]
  {
    var parts := Split(code, '-');
    if '-' in code {
      forall k | 0 <= k < |Reversed(parts)| ensures Reversed(parts)[k] !in [code] {
        assert '-' !in parts[|parts| - 1 - k];
      }
      KeepNothingExcluded(Reversed(parts), [code]);
    } else {
      SplitWithoutSep(code, '-');
      assert Reversed(parts) == [code];
    }
  }

  /** A tag that is itself in the catalog, once upper-cased, resolves to
      exactly that upper-cased tag. */
  lemma ResolveExact(code: string, catalog: set<string>)
    requires Upper(code) in catalog
    ensures Resolve(Some(code), catalog) == Some(Upper(code))
  {
    FirstInAt(Candidates(Upper(code)), catalog, 0);
  }

  /** Resolution is case-insensitive: a tag, its upper-cased and its
      lower-cased spelling resolve alike. */
  lemma ResolveIgnoresCase(code: string, catalog: set<string>)
    ensures Resolve(Some(Upper(code)), catalog) == Resolve(Some(code), catalog)
    ensures Resolve(Some(Lower(code)), catalog) == Resolve(Some(code), catalog)
  {
    UpperIdempotent(code);
    UpperOfLower(code);
  }

  /** A tag resolves to the earliest of its candidates that the catalog
      holds. */
  lemma ResolveFirstCandidate(code: string, catalog: set<string>, i: nat)
    requires i < |Candidates(Upper(code))|
    requires Candidates(Upper(code))[i] in catalog
    requires forall k :: 0 <= k < i ==> Candidates(Upper(code))[k] !in catalog
    ensures Resolve(Some(code), catalog) == Some(Candidates(Upper(code))[i])
  {
    FirstInAt(Candidates(Upper(code)), catalog, i);
  }

  /** The candidates of a two-part tag `A-B`: `A-B`, then `B`, then `A`. */
  lemma TwoPartCandidates(a: string, b: string)
    requires '-' !in a && '-' !in b
    ensures Candidates(a + "-" + b) == [a + "-" + b, b, a]
  {
    var code := a + "-" + b;
    assert Join([a, b], '-') == code;
    SplitJoin([a, b], '-');
    assert code[|a|] == '-';
    CandidatesShape(code);
  }

  /** Only parts equal to the whole tag are skipped, so a repeated part is
      tried twice: "PT-PT" gives "PT-PT", "PT", "PT". */
  lemma RepeatedPartKept()
    ensures Candidates("PT-PT") == ["PT-PT", "PT", "PT"]
  {
    assert "PT-PT" == "PT" + "-" + "PT";
    TwoPartCandidates("PT", "PT");
  }

  /** A tag that upper-cases to `A-B`, where the catalog holds `B` but not
      `A-B`, resolves to `B`. */
  lemma ResolveLastPart(code: string, a: string, b: string, catalog: set<string>)
    requires '-' !in a && '-' !in b && Upper(code) == a + "-" + b
    requires b in catalog && a + "-" + b !in catalog
    ensures Resolve(Some(code), catalog) == Some(b)
  {
    TwoPartCandidates(a, b);
    FirstInAt(Candidates(a + "-" + b), catalog, 1);
  }

  /** "se-fi" resolves to "FI" when the catalog has "FI" but not "SE-FI". */
  lemma ResolveSeFi(catalog: set<string>)
    requires "FI" in catalog && "SE-FI" !in catalog
    ensures Resolve(Some("se-fi"), catalog) == Some("FI")
  {
    assert Upper("se-fi") == "SE" + "-" + "FI";
    assert "SE" + "-" + "FI" == "SE-FI";
    ResolveLastPart("se-fi", "SE", "FI", catalog);
  }

  /** For "pt-br", "BR" wins over "PT" when the catalog has both but not
      "PT-BR". */
  lemma ResolvePtBr(catalog: set<string>)
    requires "BR" in catalog && "PT" in catalog && "PT-BR" !in catalog
    ensures Resolve(Some("pt-br"), catalog) == Some("BR")
  {
    assert Upper("pt-br") == "PT" + "-" + "BR";
    assert "PT" + "-" + "BR" == "PT-BR";
    ResolveLastPart("pt-br", "PT", "BR", catalog);
  }

  /* --------------------------------------------------------- translate */

  /** A resolved source of British or American English is sent as plain
      English. */
  function CollapseEnglish(source: Option<string>): (r: Option<string>)
    ensures r != Some("EN-GB") && r != Some("EN-US")
    ensures source == Some("EN-GB") || source == Some("EN-US") ==> r == Some("EN")
    ensures source != Some("EN-GB") && source != Some("EN-US") ==> r == source
  {
    if source == Some("EN-GB") || source == Some("EN-US") then Some("EN") else source
  }

  /** The `translate_text` call `translate` makes, or `None` when it
      returns "" without calling the client. */
  function TranslateRequest(boost: bool, defaultLanguage: string, internalLanguage: string,
                            text: Input, target: Option<string>, source: Option<string>,
                            catalog: set<string>): (req: Option<Request>)
    ensures req.None? <==>
      IsEmptyInput(text)
      || Falsy(Resolve(if Falsy(target) then Some(internalLanguage) else target, catalog))
    ensures req.Some? ==> req.value.text == text
    ensures req.Some? ==>
      Some(req.value.targetLang) == Resolve(if Falsy(target) then Some(internalLanguage) else target, catalog)
    ensures req.Some? ==>
      req.value.sourceLang ==
        CollapseEnglish(Resolve(if boost && Falsy(source) then Some(defaultLanguage) else source, catalog))
    ensures req.Some? ==> req.value.targetLang in catalog && req.value.targetLang != ""
    ensures req.Some? ==>
      req.value.sourceLang != Some("EN-GB") && req.value.sourceLang != Some("EN-US")
    ensures req.Some? && req.value.sourceLang.Some? ==>
      req.value.sourceLang.value in catalog || req.value.sourceLang == Some("EN")
  {
    var source := if boost && Falsy(source) then Some(defaultLanguage) else source;
    var target := Resolve(if Falsy(target) then Some(internalLanguage) else target, catalog);
    var source := CollapseEnglish(Resolve(source, catalog));
    if IsEmptyInput(text) || Falsy(target) then None
    else Some(Request(text, source, target.value))
  }

  /** Boost stands in the default language for a missing source: with
      boost on and no source, `translate` behaves as with boost off and the
      default language given as the source. */
  lemma BoostUsesDefaultSource(defaultLanguage: string, internalLanguage: string,
                               text: Input, target: Option<string>, source: Option<string>,
                               catalog: set<string>)
    requires Falsy(source)
    ensures TranslateRequest(true, defaultLanguage, internalLanguage, text, target, source, catalog)
         == TranslateRequest(false, defaultLanguage, internalLanguage, text, target,
                             Some(defaultLanguage), catalog)
  {
  }

  /** With boost off, or with a source given, the default language plays no
      part in the call. */
  lemma SourceIgnoresDefault(boost: bool, default1: string, default2: string,
                             internalLanguage: string, text: Input, target: Option<string>,
                             source: Option<string>, catalog: set<string>)
    requires !boost || !Falsy(source)
    ensures TranslateRequest(boost, default1, internalLanguage, text, target, source, catalog)
         == TranslateRequest(boost, default2, internalLanguage, text, target, source, catalog)
  {
  }

  /** Omitting the target is the same as asking for the internal language. */
  lemma MissingTargetIsInternal(boost: bool, defaultLanguage: string, internalLanguage: string,
                                text: Input, target: Option<string>, source: Option<string>,
                                catalog: set<string>)
    requires Falsy(target)
    ensures TranslateRequest(boost, defaultLanguage, internalLanguage, text, target, source, catalog)
         == TranslateRequest(boost, defaultLanguage, internalLanguage, text,
                             Some(internalLanguage), source, catalog)
  {
  }

  /** Turns the client's answer into what `translate` returns: each result
      of a list becomes its text, unchanged and in order; a single result
      becomes its text with surrounding white space stripped; an exception
      propagates. */
  function Normalise(reply: Reply): (r: Result<Translation, Error>)
    ensures reply.Raised? <==> r.Err?
    ensures reply.Raised? ==> r.error == GatewayError(reply.message)
    ensures reply.ReturnedList? ==>
      && r.Ok? && r.value.StrList?
      && |r.value.values| == |reply.results|
      && forall k :: 0 <= k < |reply.results| ==> r.value.values[k] == reply.results[k].text
    ensures reply.Returned? ==>
      r.Ok? && r.value.Str? && r.value.value == Strip(reply.result.text)
  {
    match reply
    case ReturnedList(rs) => Ok(StrList(seq(|rs|, k requires 0 <= k < |rs| => rs[k].text)))
    case Returned(tx) => Ok(Str(Strip(tx.text)))
    case Raised(message) => Err(GatewayError(message))
  }

  /** A text the client hands back without surrounding white space (an
      untranslatable token, say) is returned verbatim. */
  lemma NormaliseVerbatim(tx: TextResult)
    requires tx.text == [] || (!IsSpace(tx.text[0]) && !IsSpace(tx.text[|tx.text| - 1]))
    ensures Normalise(Returned(tx)) == Ok(Str(tx.text))
  {
    StripUntrimmed(tx.text);
  }

  /* ---------------------------------------------------------- detection */

  /** The call `detect` makes: translate into American English with the
      source left for DeepL to detect. */
  function DetectRequest(text: string): (req: Request)
    ensures req.text == Sentence(text) && req.sourceLang.None? && req.targetLang == "en-us"
  {
    Request(Sentence(text), None, "en-us")
  }

  /** What `detect` returns for the client's answer: the detected language
      lower-cased, or the default language when DeepL detected none. */
  function DetectedLanguage(reply: Reply, defaultLanguage: string): (r: Result<string, Error>)
    ensures r.Ok? <==> reply.Returned?
    ensures reply.Raised? ==> r == Err(GatewayError(reply.message))
    ensures reply.ReturnedList? ==> r == Err(AttributeError)
    ensures reply.Returned? && reply.result.detectedSourceLang == "" ==> r == Ok(defaultLanguage)
    ensures reply.Returned? && reply.result.detectedSourceLang != "" ==>
      r.value != "" && IsLowerCase(r.value)
      && Upper(r.value) == Upper(reply.result.detectedSourceLang)
  {
    match reply
    case Returned(tx) =>
      var lowered := Lower(tx.detectedSourceLang);
      UpperOfLower(tx.detectedSourceLang);
      Ok(if lowered != "" then lowered else defaultLanguage)
    case ReturnedList(_) => Err(AttributeError)
    case Raised(message) => Err(GatewayError(message))
  }

  /** DeepL reporting German ("DE") makes `detect` answer "de". */
  lemma DetectGerman(tx: TextResult, defaultLanguage: string)
    requires tx.detectedSourceLang == "DE"
    ensures DetectedLanguage(Returned(tx), defaultLanguage) == Ok("de")
  {
    assert Lower("DE") == "de";
  }

  /* -------------------------------------------- supported translations */

  /** The codes a resolved language can be translated into: the catalog
      without the language itself, or nothing for a language the catalog
      does not hold. */
  function Remaining(lang: Option<string>, catalog: set<string>): (r: set<string>)
    ensures r <= catalog
    ensures lang.Some? ==> lang.value !in r
    ensures lang.None? || lang.value !in catalog ==> r == {}
    ensures lang.Some? && lang.value in catalog ==>
      |r| == |catalog| - 1 && forall c :: c in catalog && c != lang.value ==> c in r
  {
    if lang.None? || lang.value !in catalog then {} else catalog - {lang.value}
  }

  /** Asking about a tag whose upper-cased spelling is in the catalog gives
      the whole catalog except that code. */
  lemma SupportedExcludesTag(code: string, catalog: set<string>)
    requires Upper(code) in catalog
    ensures Remaining(Resolve(Some(code), catalog), catalog) == catalog - {Upper(code)}
  {
    ResolveExact(code, catalog);
  }

  /** Asking about a German text, when the catalog has "DE", gives every
      other code of the catalog. */
  lemma SupportedForGermanText(tx: TextResult, defaultLanguage: string, catalog: set<string>)
    requires tx.detectedSourceLang == "DE" && "DE" in catalog
    ensures var d := DetectedLanguage(Returned(tx), defaultLanguage);
      d.Ok? && Remaining(Resolve(Some(d.value), catalog), catalog) == catalog - {"DE"}
  {
    DetectGerman(tx, defaultLanguage);
    assert Upper("de") == "DE";
    SupportedExcludesTag("de", catalog);
  }

  /* ------------------------------------------------------------ objects */

  /** `DeepLTranslator`: the client, the two configured languages, and the
      `boost` switch that `__init__` turns off. */
  class DeepLTranslator {
    const client: Client
    const defaultLanguage: string
    const internalLanguage: string
    var boost: bool

    constructor (client: Client, defaultLanguage: string, internalLanguage: string)
      ensures this.client == client
      ensures this.defaultLanguage == defaultLanguage
      ensures this.internalLanguage == internalLanguage
      ensures !boost
    {
      this.client := client;
      this.defaultLanguage := defaultLanguage;
      this.internalLanguage := internalLanguage;
      boost := false;
    }

    /** `get_langcode`: the first candidate of the upper-cased tag that the
        catalog holds, or `None`. */
    method GetLangcode(code: Option<string>, catalog: set<string>) returns (r: Option<string>)
      ensures r == Resolve(code, catalog)
      ensures r.Some? ==> r.value in catalog
      ensures code.Some? ==>
        (r.None? <==> forall c :: c in Candidates(Upper(code.value)) ==> c !in catalog)
    {
      if code.None? {
        return None;
      }
      var c := Upper(code.value);
      var codes := [c];
      codes := codes + Keep(Reversed(Split(c, '-')), codes);
      var i := 0;
      while i < |codes|
        invariant 0 <= i <= |codes|
        invariant forall k :: 0 <= k < i ==> codes[k] !in catalog
      {
        if codes[i] in catalog {
          FirstInAt(codes, catalog, i);
          return Some(codes[i]);
        }
        i := i + 1;
      }
      return None;
    }

    /** `translate`: the call it makes to the client (none when it returns
        "" early) and what it returns. */
    method Translate(text: Input, target: Option<string>, source: Option<string>,
                     catalog: set<string>)
      returns (r: Result<Translation, Error>, sent: Option<Request>)
      ensures sent == TranslateRequest(boost, defaultLanguage, internalLanguage,
                                       text, target, source, catalog)
      ensures sent.None? ==> r == Ok(Str(""))
      ensures sent.Some? ==> r == Normalise(client(sent.value))
    {
      var source := source;
      if boost && Falsy(source) {
        source := Some(defaultLanguage);
      }
      var target := GetLangcode(if Falsy(target) then Some(internalLanguage) else target, catalog);
      source := GetLangcode(source, catalog);
      if source == Some("EN-GB") || source == Some("EN-US") {
        source := Some("EN");
      }
      if IsEmptyInput(text) || Falsy(target) {
        return Ok(Str("")), None;
      }
      sent := Some(Request(text, source, target.value));
      var tx := client(sent.value);
      r := Normalise(tx);
    }

    /** `supported_translations`: the codes the language (detected from
        `text` when that is not empty) can be translated into. */
    method SupportedTranslations(lang: Option<string>, text: string, catalog: set<string>)
      returns (r: Result<set<string>, Error>)
      ensures text == "" ==> r == Ok(Remaining(Resolve(lang, catalog), catalog))
      ensures text != "" ==>
        var d := DetectedLanguage(client(DetectRequest(text)), defaultLanguage);
        r == if d.Err? then Err(d.error) else Ok(Remaining(Resolve(Some(d.value), catalog), catalog))
      ensures r.Ok? ==> r.value <= catalog
    {
      var lang := lang;
      if text != "" {
        var detector := new DeepLDetector(client, defaultLanguage);
        var detected := detector.Detect(text);
        if detected.Err? {
          return Err(detected.error);
        }
        lang := Some(detected.value);
      }
      lang := GetLangcode(lang, catalog);
      var supported := catalog;
      if lang.None? || lang.value !in supported {
        return Ok({});
      }
      supported := supported - {lang.value};
      return Ok(supported);
    }
  }

  /** `DeepLDetector`: the client and the configured default language. */
  class DeepLDetector {
    const client: Client
    const defaultLanguage: string

    constructor (client: Client, defaultLanguage: string)
      ensures this.client == client && this.defaultLanguage == defaultLanguage
    {
      this.client := client;
      this.defaultLanguage := defaultLanguage;
    }

    /** `detect`: the language DeepL detects in `text`, lower-cased, or the
        default language when it detects none. */
    function Detect(text: string): (r: Result<string, Error>)
      ensures r == DetectedLanguage(client(DetectRequest(text)), defaultLanguage)
      ensures r.Ok? ==> r.value == defaultLanguage || (r.value != "" && IsLowerCase(r.value))
    {
      DetectedLanguage(client(DetectRequest(text)), defaultLanguage)
    }
  }
}
