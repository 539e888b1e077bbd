/**
  The parts of application set-up and of `get_answer` that decide what the
  assistant says: the required system prompt of the voice configuration,
  the greeting short-circuit, and the pipeline from utterance to either a
  canned reply or a request to the text generator. Retrieval is a
  parameter: the context the vector store returns for a query, or nothing
  when there is no store.
 */
module Assistant {
  import opened Wrappers
  import opened Text
  import opened Lexicon
  import opened Normalizer
  import opened Intent
  import opened QueryBuilder
  import opened Fallback

  /** The error `_load_voice_config` raises. */
  const MISSING_PROMPT: string := "Missing system_prompt.content in voice config."

  /** The utterances answered with the greeting, after trimming and lower-casing. */
  const GREETINGS: set<string> := {"hi", "hello", "hey", "salam", "assalamualaikum", "asalamualaikum"}

  /** The greeting. */
  const GREETING_REPLY: string := "Assalam-o-Alaikum. Welcome to Bank Islami. Mai aap ki madad ke liye hoon."

  /** The voice configuration as parsed, with missing sections already
      read as empty: `system_prompt.content` may be absent. */
  datatype RawConfig = RawConfig(
    systemPrompt: Option<string>,
    intentKeywords: Groups,
    productNormalization: Groups,
    fallbackResponses: map<string, string>)

  /** The configuration the application runs with. */
  datatype VoiceConfig = VoiceConfig(
    systemPrompt: string,
    intentKeywords: Groups,
    productNormalization: Groups,
    fallbackResponses: map<string, string>)

  /** `_load_voice_config` after the file is read: a missing or empty
      system prompt is an error; otherwise the configuration is kept. */
  function LoadVoiceConfig(raw: RawConfig): (r: Result<VoiceConfig, string>)
    ensures r.Failure? <==> !Truthy(raw.systemPrompt)
    ensures r.Failure? ==> r.error == MISSING_PROMPT
    ensures r.Success? ==> r.value.systemPrompt != "" && Some(r.value.systemPrompt) == raw.systemPrompt
    ensures r.Success? ==>
      && r.value.intentKeywords == raw.intentKeywords
      && r.value.productNormalization == raw.productNormalization
      && r.value.fallbackResponses == raw.fallbackResponses
  {
    if !Truthy(raw.systemPrompt) then Failure(MISSING_PROMPT)
    else Success(VoiceConfig(raw.systemPrompt.value, raw.intentKeywords, raw.productNormalization,
                             raw.fallbackResponses))
  }

  /** `user_text.strip().lower()` is one of the greetings. */
  predicate IsGreeting(userText: string) {
    Lower(Strip(userText)) in GREETINGS
  }

  /** What `get_answer` produces: a reply it returns itself, or a request
      to the text generator, whose answer is not part of this model. */
  datatype Answer =
    | Reply(text: string)
    | Generate(userText: string, systemPrompt: string, context: string)

  /** The answer to `userText`, stage by stage. */
  function AnswerFor(cfg: VoiceConfig, productMap: map<string, string>, userText: string,
                     retrieve: string -> string): (a: Answer)
    ensures IsGreeting(userText) ==> a == Reply(GREETING_REPLY)
    ensures a.Reply? ==> a.text != ""
    ensures a.Generate? ==>
      && !IsGreeting(userText) && a.context != ""
      && a.userText == userText && a.systemPrompt == cfg.systemPrompt
  {
    if IsGreeting(userText) then Reply(GREETING_REPLY)
    else
      var (normalizedText, productName) := Normalize(userText, cfg.productNormalization, productMap);
      var intent := DetectIntent(normalizedText, cfg.intentKeywords);
      var query := JoinWith(Dedup(Candidates(normalizedText, productName, intent, cfg.intentKeywords)), " ");
      var context := retrieve(query);
      if context == "" then Reply(FallbackResponse(normalizedText, productName, intent, cfg.fallbackResponses))
      else Generate(userText, cfg.systemPrompt, context)
  }

  /** `get_answer(user_text)`. */
  method GetAnswer(cfg: VoiceConfig, productMap: map<string, string>, userText: string,
                   retrieve: string -> string) returns (answer: Answer)
    ensures answer == AnswerFor(cfg, productMap, userText, retrieve)
  {
    var normalized := Lower(Strip(userText));
    if normalized in GREETINGS {
      return Reply(GREETING_REPLY);
    }
    var normalizedText, productName := NormalizeTranscript(userText, cfg.productNormalization, productMap);
    var intent := DetectIntent(normalizedText, cfg.intentKeywords);
    var query := BuildRetrievalQuery(normalizedText, productName, intent, cfg.intentKeywords);
    var ragContext := retrieve(query);
    if ragContext == "" {
      return Reply(FallbackResponse(normalizedText, productName, intent, cfg.fallbackResponses));
    }
    return Generate(userText, cfg.systemPrompt, ragContext);
  }

  /** Without a knowledge store nothing is retrieved, so every utterance
      that is not a greeting gets a canned reply: a configured template or
      the apology. */
  lemma NoStoreMeansCannedReply(cfg: VoiceConfig, productMap: map<string, string>, userText: string)
    requires !IsGreeting(userText)
    ensures var a := AnswerFor(cfg, productMap, userText, _ => "");
      a.Reply? && (a.text == DEFAULT_REPLY || a.text in cfg.fallbackResponses.Values)
  {
  }

  /** The retrieval query is never empty: it always holds the generic words, ignoring case. */
  lemma QueryNeverEmpty(cfg: VoiceConfig, productMap: map<string, string>, userText: string)
    ensures var (normalizedText, productName) := Normalize(userText, cfg.productNormalization, productMap);
      var intent := DetectIntent(normalizedText, cfg.intentKeywords);
      JoinWith(Dedup(Candidates(normalizedText, productName, intent, cfg.intentKeywords)), " ") != ""
  {
    var (normalizedText, productName) := Normalize(userText, cfg.productNormalization, productMap);
    QueryHoldsGenericWords(normalizedText, productName, DetectIntent(normalizedText, cfg.intentKeywords),
                           cfg.intentKeywords);
  }

  /** The greeting test ignores case: an utterance is a greeting exactly
      when its lower-case form is. */
  lemma GreetingIgnoresCase(userText: string)
    ensures IsGreeting(userText) <==> IsGreeting(Lower(userText))
  {
    StripLower(userText);
    LowerIsLowercase(Strip(userText));
  }

  /** Surrounding whitespace and case do not matter: "  Assalamualaikum  "
      is a greeting. */
  lemma GreetingExample()
    ensures IsGreeting("  Assalamualaikum  ")
  {
    var s := "  Assalamualaikum  ";
    GreetingStripped(s, "Assalamualaikum");
    GreetingLowered("Assalamualaikum", "assalamualaikum");
  }

  lemma GreetingStripped(s: string, w: string)
    requires s == "  Assalamualaikum  " && w == "Assalamualaikum"
    ensures Strip(s) == w
  {
    assert s == "  " + w + "  ";
    StripAround(s, "  ", w, "  ");
  }

  lemma GreetingLowered(w: string, l: string)
    requires w == "Assalamualaikum" && l == "assalamualaikum"
    ensures Lower(w) == l && l in GREETINGS
  {
    assert |Lower(w)| == |l|;
    assert forall i :: 0 <= i < |l| ==> Lower(w)[i] == l[i];
  }

  /** A greeting followed by more words is not a greeting. */
  lemma LongerTextIsNoGreeting()
    ensures !IsGreeting("hi there")
  {
    var s := "hi there";
    assert IsTrimmed(s);
    StripOfTrimmed(s);
    assert |Lower(s)| == 8;
  }
}
