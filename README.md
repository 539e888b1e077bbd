# Bank assistant understanding layer, in Dafny

This project models the part of the bank voice/text assistant (`routes.py`)
that decides what an utterance means and what to do with it. It covers:

- the speech-to-text correction table and its in-order application;
- transcript normalization: whitespace collapsing, lower-casing,
  corrections, then first-match-wins product resolution over ordered
  synonym groups and rewriting of the winning group's synonyms;
- the product display-name map built from catalog records;
- intent detection: the first configured intent with a keyword in the text;
- the retrieval query builder: candidate terms, deduplicated ignoring
  case, trimmed, joined with spaces;
- the fallback reply decision table;
- the greeting short-circuit and the `get_answer` pipeline up to the
  point where retrieval and generation take over;
- the required system prompt of the voice configuration.

Python's string built-ins are modelled over ASCII in module `Text`:

- `lower`, `strip`, `split`, `" ".join`, `replace`, `in` and `title`;
- `str.replace` with an empty needle inserts the replacement around every
  character, exactly as Python does;
- `"" in s` is true.

Configuration dictionaries that are iterated are modelled as sequences of
pairs (`Lexicon.Groups`), because their insertion order decides which entry
wins. Mappings that are only looked up (`product_map`, `fallback_responses`)
are Dafny maps.

Modules: `Wrappers` (Option, Result), `Text`, `SplitJoin` (`split` with a
separator and its tie to `replace`), `ReplaceLaws` (what `replace` leaves
behind), `Lexicon` (ordered configuration lists and the first-match scan),
`SttFixes`, `FixStability` (the prepared text is a fixed point),
`ProductMap`, `Normalizer`, `Intent`, `QueryBuilder`, `Fallback`,
`Assistant`.

Four loops of `routes.py` are methods proved equal to specification
functions: `ApplySttFixes`, `LoadProductMap`, `NormalizeTranscript` (nested
loops with early return) and `BuildRetrievalQuery`. `GetAnswer` is the
request handler; it has no loop and is proved equal to `AnswerFor`.
`DetectIntent` is a function although `_detect_intent` loops
(routes.py:86-89): its scan is the first-match scan `Lexicon.FirstMention`,
shared with product resolution. The lemmas state the properties of those
functions.

Facts a reader may not expect:

- The retrieval query is never empty: the four generic expansion words are
  always candidates (`QueryBuilder.QueryHoldsGenericWords`,
  `Assistant.QueryNeverEmpty`).
- A malformed catalog file makes `_load_json` raise; only the record loop
  is modelled.
- A resolved product name can be the empty string. This happens when the
  canonical key is `""` and the catalog has no entry for it. It is
  `Some("")` here and is falsy wherever the code tests `product_name`.

## Model

| member | source | states |
|---|---|---|
| `Text.Lower` | routes.py:71 | `str.lower()` over ASCII: same length, each character lowered |
| `Text.LowerIsLowercase` | routes.py:71 | a lowered string has no capital letter, and lowering it again changes nothing |
| `Text.Contains` | routes.py:77 | `p in s`: `p` is a prefix of `s` or of some suffix of it, scanning from the left; the empty string is in every string |
| `Text.ContainsIffOccurs` | routes.py:77 | `p in s` holds exactly when `p` sits at some position of `s` |
| `SplitJoin.ReplaceIsSplitJoin` | routes.py:65 | `s.replace(n, r)` equals `r.join(s.split(n))` for a non-empty needle |
| `SplitJoin.ReplaceAtFirst` | routes.py:65 | `replace` keeps the text before the leftmost occurrence, puts the replacement there and continues after it |
| `ReplaceLaws.ReplaceAvoids` | routes.py:65 | after `replace`, the text holds no `p` that cannot overlap the replacement, if `p` is the needle itself or was absent before; a needle that can overlap the replacement may reappear (`"aab".replace("ab", "b")` is `"ab"`) |
| `ReplaceLaws.ConcatAvoids` | routes.py:65 | gluing a replacement that cannot overlap `p` between two texts without `p` makes no `p` |
| `ReplaceLaws.ReplaceKeepsCollapsed` | routes.py:65 | replacing with a single word keeps single spaces strictly between words |
| `ReplaceLaws.CollapseOfCollapsed` | routes.py:70 | a text with single spaces strictly between words is its own collapse |
| `Text.ReplaceAll` | routes.py:65 | `s.replace(needle, repl)`: scanning left to right, each non-overlapping occurrence of the needle is replaced; an empty needle puts the replacement before every character and at the end |
| `Text.ReplaceAbsent` | routes.py:65 | a text without the needle is left unchanged by `replace` |
| `SplitJoin.ReplaceOneOccurrence` | routes.py:65 | a needle after text without its first character and before text missing one of its characters is replaced exactly there, the rest kept |
| `Text.ReplaceKeepsNoUpper` | routes.py:80 | replacing with a lower-case target keeps a lower-case text lower-case, empty needle included |
| `Text.ReplaceSameLength` | routes.py:78 | replacing a needle by a string of its length keeps the length |
| `Text.JoinWith` | routes.py:115 | `sep.join(parts)`: the parts in order with `sep` between each two, the empty string for no parts |
| `Text.Collapse` | routes.py:70 | `" ".join(s.strip().split())`: the whitespace-separated words of the text joined by single spaces |
| `Text.Words` | routes.py:70 | `split()` yields non-empty words without whitespace |
| `Text.WordsOfRun` | routes.py:70 | `split()` cuts a word off exactly where whitespace begins: a word followed by whitespace or the end is the first word |
| `Text.WordsOfSpaces` | routes.py:70 | a whitespace run of any length before a text adds no word and leaves no trace |
| `Text.CollapseTwoWords` | routes.py:70 | two words with any non-empty whitespace run between them collapse to the two words joined by one space |
| `Text.CollapseExample` | routes.py:70 | "ab  cd" collapses to "ab cd" |
| `Text.CollapseKeepsVisible` | routes.py:70 | `" ".join(s.strip().split())` keeps every non-whitespace character in order |
| `Text.CollapseIsCollapsed` | routes.py:70 | the collapsed text has only single spaces strictly between words |
| `Text.CollapseIdempotent` | routes.py:70 | collapsing a collapsed text changes nothing |
| `Text.CollapseKeepsWords` | routes.py:70 | collapsing keeps the words of the text themselves, in order |
| `Text.Strip` | routes.py:110 | `s.strip()`: leading whitespace dropped, then trailing whitespace dropped |
| `Text.TrimStartDrops` | routes.py:110 | stripping the left end drops only whitespace and leaves a string not starting with whitespace |
| `Text.TrimEndDrops` | routes.py:110 | stripping the right end drops only whitespace and leaves a string not ending with whitespace |
| `Text.StripDrops` | routes.py:110 | `strip()` keeps a contiguous piece of the text, drops only whitespace around it, and leaves no whitespace at either end |
| `Text.StripAround` | routes.py:150 | `strip()` removes exactly the whitespace around a word |
| `Text.StripLower` | routes.py:150 | stripping and lower-casing commute |
| `Text.Title` | routes.py:78 | `s.title()`: a letter is upper-cased when it is first or the character directly before it is not a letter, lower-cased otherwise; other characters are kept |
| `Text.TitleAt` | routes.py:78 | `title()` upper-cases a letter exactly when it is first or the character directly before it is not a letter, and lower-cases the other letters |
| `Text.TitleOnlyChangesCase` | routes.py:78 | `title()` keeps the length and the letters up to case |
| `Lexicon.FirstMention` | routes.py:74-77 | the first group in configuration order with a word in the text, or none exactly when no group has one |
| `Lexicon.Lookup` | routes.py:105-106 | `intent_keywords[intent]`: absent exactly when no entry has the key, else the words of an entry with it |
| `SttFixes.ApplyFixes` | routes.py:62-66 | the pairs of a table applied one after another with `replace`, each to the output of the one before; `_STT_FIXES` (routes.py:27-31) is the table of the three pairs "a count" to "account", "a/c" to "account", "a san" to "asaan" |
| `SttFixes.ApplySttFixes` | routes.py:62-66 | the loop applies the pairs of the table one after another, in order |
| `SttFixes.ApplyFixesAppend` | routes.py:64-65 | later pairs see the output of earlier ones: applying two tables is applying their concatenation |
| `SttFixes.ApplyFixesAbsent` | routes.py:62-66 | a text holding none of the sources comes out unchanged |
| `SttFixes.SttFixesKeepLowercase` | routes.py:27-31 | the corrections keep a lower-case text lower-case |
| `SttFixes.OnePairExample` | routes.py:62-66 | with the pair "a count" to "account", "open a count please" becomes "open account please" |
| `SttFixes.SttTableExample` | routes.py:27-31 | with the real table, "a/c kholna hai" becomes "account kholna hai" |
| `SttFixes.SttInsideWordExample` | routes.py:27-31 | corrections fire inside longer words: "kya count" becomes "kyaccount" |
| `FixStability.SttFixesLeaveNoSource` | routes.py:27-31 | after the three corrections a collapsed text is still collapsed and holds none of the sources |
| `FixStability.FixedTextIdempotent` | routes.py:70-72 | collapsing, lowering and correcting the prepared text again changes nothing |
| `ProductMap.CatalogMap` | routes.py:53-59 | keys and names are non-empty, every kept record's id is a key, every key comes from a kept record |
| `ProductMap.LoadProductMap` | routes.py:53-59 | the record loop builds exactly the catalog map |
| `ProductMap.CatalogMapLastWins` | routes.py:57-58 | a later kept record with the same id overwrites an earlier one |
| `Normalizer.DisplayName` | routes.py:78 | `product_map.get(k)` when present and non-empty, otherwise `k.replace("_", " ").title()` |
| `Normalizer.FixedText` | routes.py:70-72 | the text before product matching: whitespace collapsed, then lower-cased, then the speech-to-text corrections applied |
| `Normalizer.RewriteVariants` | routes.py:79-80 | each synonym of the list, lower-cased, replaced in turn by the target, each `replace` working on the output of the one before |
| `Normalizer.DisplayNameFromKey` | routes.py:78 | with no catalog name, the display name is the key with `_` as spaces, title-cased: same length and letters, empty only for an empty key |
| `Normalizer.DisplayNameFromCatalog` | routes.py:78 | with the map from the catalog, a key's display name is the name of its last kept record |
| `Normalizer.Normalize` | routes.py:69-82 | no product exactly when no group's synonym is in the fixed text, the text then being the collapsed, lowered, corrected input; otherwise the first such group gives the product, and only its synonyms are rewritten to the lowered display name |
| `Normalizer.WholeSynonymResolves` | routes.py:74-78 | a synonym that is the whole prepared text resolves to its group's display name when no earlier group is mentioned |
| `Normalizer.NormalizeTranscript` | routes.py:69-82 | the nested loops with early return compute `Normalize` |
| `Normalizer.RewriteKeepsNoUpper` | routes.py:79-80 | rewriting synonyms to a lower-case target keeps a lower-case text lower-case |
| `Normalizer.RewriteAbsent` | routes.py:79-80 | synonyms that do not occur leave the text unchanged |
| `Normalizer.NormalizedIsLowercase` | routes.py:71-81 | the normalized text never holds a capital letter |
| `Normalizer.LowerCollapse` | routes.py:70-71 | lower-casing commutes with collapsing whitespace |
| `Normalizer.CleanedIsStable` | routes.py:70-71 | collapsing and lowering the cleaned text again changes nothing |
| `Intent.DetectIntent` | routes.py:85-90 | none exactly when no keyword of any intent is in the text; otherwise the first intent in configuration order with one, which is a configured key |
| `Intent.ConfigOrderWins` | routes.py:86-89 | configuration order decides, not position in the text |
| `QueryBuilder.Parts` | routes.py:99-103 | `parts`: the text when non-empty, then the product name when non-empty and its lower-case is not in the text, then the non-empty intent with `_` as spaces |
| `QueryBuilder.Expansion` | routes.py:104-106 | `expansion`: the four generic words, then the keywords of a non-empty intent that has an entry in the keyword table |
| `QueryBuilder.Candidates` | routes.py:99-106 | `parts + expansion`, the list the dedup loop walks |
| `QueryBuilder.Dedup` | routes.py:107-114 | `ordered` after the loop: each candidate stripped, appended when non-empty and its lower-case is not yet in `seen` |
| `QueryBuilder.CandidatesContent` | routes.py:99-106 | the candidates are the text, the product name if not in the text, the intent with `_` as spaces, the generic words and the intent's keywords |
| `QueryBuilder.ProductAlreadyInText` | routes.py:100-101 | a product name whose lower-case the text holds adds no candidate |
| `QueryBuilder.DedupTermsTrimmed` | routes.py:110-114 | every kept term is non-empty and trimmed |
| `QueryBuilder.DedupDistinct` | routes.py:111-114 | no two kept terms are equal ignoring case |
| `QueryBuilder.DedupKeysStep` | routes.py:109-114 | one more candidate adds its lower-cased trimmed form to `seen` exactly when it is not blank |
| `QueryBuilder.DedupCovers` | routes.py:109-114 | every non-blank candidate is represented, ignoring case |
| `QueryBuilder.DedupKeysFromCandidates` | routes.py:109-114 | every kept term's lower-case key is the key of some trimmed candidate |
| `QueryBuilder.DedupIsSubsequence` | routes.py:109-114 | the kept terms are the trimmed candidates with some left out, in order |
| `QueryBuilder.DedupPrefix` | routes.py:109-114 | the terms kept from a prefix of the candidates are a prefix of the terms kept from all of them: `ordered` is only appended to |
| `QueryBuilder.DedupKeepsFirst` | routes.py:109-114 | the first non-blank candidate with a given key is kept trimmed, in its original case, right after the terms kept from the candidates before it, so kept terms are in first-occurrence order |
| `QueryBuilder.QueryHoldsGenericWords` | routes.py:104-115 | every generic word, ignoring case, is a term of the query (a candidate spelled "Features" that comes first is kept in its own spelling), so the query is never empty |
| `QueryBuilder.BuildRetrievalQuery` | routes.py:93-115 | the method builds the candidates and deduplicates them with `seen` and `ordered`, giving the joined `Dedup` of the candidates |
| `Fallback.HasTemplate` | routes.py:124-129 | `fallbacks.get(key)` is truthy: the key is present with a non-empty template |
| `Fallback.FirstTemplate` | routes.py:126 | an `or` chain of lookups: the first non-empty template wins, the apology when none; never empty |
| `Fallback.ConcernsAccount` | routes.py:124-126 | `is_account`: the normalized text holds "account" or the intent is `account_benefits` or `account_opening` |
| `Fallback.RuleKeys` | routes.py:124-129 | every rule's chain ends with `handoff` and consults at most two templates |
| `Fallback.FallbackResponse` | routes.py:118-129 | the reply is never empty and is the apology or a configured template |
| `Fallback.AccountWithoutProduct` | routes.py:124-126 | an account concern without a product gives `clarify_account`, else `handoff`, else the apology |
| `Fallback.OpeningWithProduct` | routes.py:127-128 | account opening with a product gives `general_opening`, else `handoff`, else the apology |
| `Fallback.OtherwiseHandoff` | routes.py:129 | any other case gives `handoff`, else the apology |
| `Fallback.OpeningWithoutProductClarifies` | routes.py:124-128 | account opening without a product asks which account: rule 1 comes before rule 2 |
| `Fallback.OnlyThreeTemplates` | routes.py:124-129 | only `clarify_account`, `general_opening` and `handoff` are ever consulted |
| `Fallback.OpenAnAccountExample` | routes.py:124-126 | "i want to open an account" with no product gets the `clarify_account` template |
| `Assistant.LoadVoiceConfig` | routes.py:42-44 | a missing or empty system prompt is the startup error, otherwise the configuration is kept |
| `Assistant.IsGreeting` | routes.py:150-151 | `user_text.strip().lower()` is one of the six fixed greetings |
| `Assistant.AnswerFor` | routes.py:149-159 | a greeting gets the greeting; a canned reply is never empty; generation gets the raw text, the system prompt and a non-empty context |
| `Assistant.GetAnswer` | routes.py:149-159 | the request handler computes `AnswerFor`, stage by stage |
| `Assistant.NoStoreMeansCannedReply` | routes.py:156-158 | without a store, every non-greeting gets a template or the apology |
| `Assistant.QueryNeverEmpty` | routes.py:155 | the query handed to retrieval is never empty |
| `Assistant.GreetingIgnoresCase` | routes.py:150-151 | an utterance is a greeting exactly when its lower-case form is |
| `Assistant.GreetingExample` | routes.py:150-152 | "  Assalamualaikum  " is a greeting |
| `Assistant.LongerTextIsNoGreeting` | routes.py:150-151 | "hi there" is not a greeting: the test is exact membership |

## Left out

- The FastAPI application and its endpoints are HTTP plumbing and are not modelled. This covers `create_app`, the UI, health, text, audio, TTS, media, webhook and WhatsApp routes.
- The speech, WhatsApp, retrieval and generation services (`.azure`, `.whatsapp`, `rag_pipeline`, `.ui`) are foreign code that is not part of this model. Retrieval is the `retrieve` parameter of `GetAnswer`: no store is the constant empty context. Generation is the `Generate` answer, whose text and formatting are not modelled.
- File and environment access is I/O and is not modelled. This covers `_load_json`, `os.getenv`, `os.path.exists`, the `.json` suffix guard of `_load_product_map` and the reading of the configuration. The model starts from parsed values: `RawConfig` and the catalog records.
- JSON values that are not strings or lists of strings are not modelled. Examples: a non-string `name` or template, or a non-list synonym entry.
- Duplicate keys in the configuration dictionaries cannot happen in Python. `Lexicon.Lookup` answers with the first entry that has the key.
- `asyncio.create_task`, concurrency and the `print` logging are left out.
- Letters outside ASCII are left out. `lower`, `title`, `strip` and `split` are modelled over ASCII; Python's whitespace is taken as code points 9 to 13 and 28 to 32.
- Normalizer.Normalize: the full normalization is not idempotent, and no such property is stated for it. A display name can contain a synonym of its own group, for example "savings" inside "Asaan Savings Account", so normalizing twice rewrites again. Only the stage before product matching is proved stable: `FixStability.FixedTextIdempotent` for collapsing, lowering and correcting, and `Normalizer.CleanedIsStable` for collapsing and lowering.
- Normalizer.Normalize: the winning group's synonyms are rewritten one after another, so a later synonym can fire inside the display name an earlier one put in. With key `current_account` and synonyms `["current", "account"]`, "current" becomes "current current account". No property says the display name appears once.
- Normalizer.WholeSynonymResolves: a synonym said on its own resolves to its own group only when no earlier group has a synonym inside it, because the first group mentioned wins. With groups `a: ["account"]` then `b: ["savings account"]`, "savings account" resolves to "A" and becomes "savings a". It also holds only when the synonym survives preparation unchanged: a synonym holding "a count", "a/c" or "a san", a double space, or whitespace at either end is not its own prepared text. With the single group `savings: ["a/c savings"]`, the input "a/c savings" is prepared to "account savings", which does not hold "a/c savings", so no product is resolved.
