/**
  `_fallback_response`: the canned reply when retrieval finds nothing. A
  three-rule decision table, each rule an `or` chain of template lookups
  ending in a fixed apology; a missing or empty template is skipped.
 */
module Fallback {
  import opened Wrappers
  import opened Text

  /** The reply when no template applies. */
  const DEFAULT_REPLY: string := "Mazrat, main samajh nahi saka."

  /** The intents that concern an account whatever the text says. */
  const ACCOUNT_INTENTS: set<string> := {"account_benefits", "account_opening"}

  /** `fallbacks.get(key)` is truthy: present and non-empty. */
  predicate HasTemplate(fallbacks: map<string, string>, key: string) {
    key in fallbacks && fallbacks[key] != ""
  }

  /** `fallbacks.get(keys[0]) or fallbacks.get(keys[1]) or … or DEFAULT_REPLY`. */
  function FirstTemplate(fallbacks: map<string, string>, keys: seq<string>): (r: string)
    ensures r != ""
    ensures r == DEFAULT_REPLY || r in fallbacks.Values
    ensures forall i ::
      (0 <= i < |keys| && HasTemplate(fallbacks, keys[i]) && forall j :: 0 <= j < i ==> !HasTemplate(fallbacks, keys[j]))
      ==> r == fallbacks[keys[i]]
    ensures (forall i :: 0 <= i < |keys| ==> !HasTemplate(fallbacks, keys[i])) ==> r == DEFAULT_REPLY
    decreases |keys|
  {
    if keys == [] then DEFAULT_REPLY
    else if HasTemplate(fallbacks, keys[0]) then fallbacks[keys[0]]
    else
      var r := FirstTemplate(fallbacks, keys[1..]);
      assert forall i :: 1 <= i < |keys| ==> keys[i] == keys[1..][i - 1];
      r
  }

  /** `is_account`: the text holds "account", or the intent is one of the
      account intents. */
  predicate ConcernsAccount(normalizedText: string, intent: Option<string>) {
    Contains(normalizedText, "account") || (intent.Some? && intent.value in ACCOUNT_INTENTS)
  }

  /** The template keys consulted, in order, by the rule that applies;
      every rule ends with `handoff`. */
  function RuleKeys(normalizedText: string, productName: Option<string>, intent: Option<string>): (keys: seq<string>)
    ensures 1 <= |keys| <= 2 && keys[|keys| - 1] == "handoff"
  {
    if ConcernsAccount(normalizedText, intent) && !Truthy(productName) then ["clarify_account", "handoff"]
    else if intent == Some("account_opening") then ["general_opening", "handoff"]
    else ["handoff"]
  }

  /** `_fallback_response(normalized_text, product_name, intent, fallbacks)`. */
  function FallbackResponse(normalizedText: string, productName: Option<string>, intent: Option<string>,
                            fallbacks: map<string, string>): (r: string)
    ensures r != ""
    ensures r == DEFAULT_REPLY || r in fallbacks.Values
  {
    FirstTemplate(fallbacks, RuleKeys(normalizedText, productName, intent))
  }

  /** Rule 1: an account question without a product asks which account,
      failing that hands off. */
  lemma AccountWithoutProduct(normalizedText: string, productName: Option<string>, intent: Option<string>,
                              fallbacks: map<string, string>)
    requires ConcernsAccount(normalizedText, intent) && !Truthy(productName)
    ensures HasTemplate(fallbacks, "clarify_account") ==>
      FallbackResponse(normalizedText, productName, intent, fallbacks) == fallbacks["clarify_account"]
    ensures !HasTemplate(fallbacks, "clarify_account") && HasTemplate(fallbacks, "handoff") ==>
      FallbackResponse(normalizedText, productName, intent, fallbacks) == fallbacks["handoff"]
    ensures !HasTemplate(fallbacks, "clarify_account") && !HasTemplate(fallbacks, "handoff") ==>
      FallbackResponse(normalizedText, productName, intent, fallbacks) == DEFAULT_REPLY
  {
    var keys := RuleKeys(normalizedText, productName, intent);
    assert keys[0] == "clarify_account" && keys[1] == "handoff";
  }

  /** Rule 2: account opening with the product known gives the general
      opening template, failing that hands off. */
  lemma OpeningWithProduct(normalizedText: string, productName: Option<string>, fallbacks: map<string, string>)
    requires Truthy(productName)
    ensures HasTemplate(fallbacks, "general_opening") ==>
      FallbackResponse(normalizedText, productName, Some("account_opening"), fallbacks) == fallbacks["general_opening"]
    ensures !HasTemplate(fallbacks, "general_opening") && HasTemplate(fallbacks, "handoff") ==>
      FallbackResponse(normalizedText, productName, Some("account_opening"), fallbacks) == fallbacks["handoff"]
    ensures !HasTemplate(fallbacks, "general_opening") && !HasTemplate(fallbacks, "handoff") ==>
      FallbackResponse(normalizedText, productName, Some("account_opening"), fallbacks) == DEFAULT_REPLY
  {
    var keys := RuleKeys(normalizedText, productName, Some("account_opening"));
    assert keys[0] == "general_opening" && keys[1] == "handoff";
  }

  /** Rule 3: anything else hands off, failing that apologises. */
  lemma OtherwiseHandoff(normalizedText: string, productName: Option<string>, intent: Option<string>,
                         fallbacks: map<string, string>)
    requires !(ConcernsAccount(normalizedText, intent) && !Truthy(productName))
    requires intent != Some("account_opening")
    ensures FallbackResponse(normalizedText, productName, intent, fallbacks) ==
      if HasTemplate(fallbacks, "handoff") then fallbacks["handoff"] else DEFAULT_REPLY
  {
    var keys := RuleKeys(normalizedText, productName, intent);
    assert keys[0] == "handoff";
  }

  /** The account-opening intent concerns an account, so without a product
      rule 1 wins over rule 2. */
  lemma OpeningWithoutProductClarifies(normalizedText: string, productName: Option<string>,
                                       fallbacks: map<string, string>)
    requires !Truthy(productName) && HasTemplate(fallbacks, "clarify_account")
    ensures FallbackResponse(normalizedText, productName, Some("account_opening"), fallbacks) == fallbacks["clarify_account"]
  {
    assert "account_opening" in ACCOUNT_INTENTS;
    AccountWithoutProduct(normalizedText, productName, Some("account_opening"), fallbacks);
  }

  /** Only the templates `clarify_account`, `general_opening` and `handoff`
      are ever consulted. */
  lemma OnlyThreeTemplates(normalizedText: string, productName: Option<string>, intent: Option<string>,
                           fallbacks: map<string, string>, other: map<string, string>)
    requires forall k :: k in {"clarify_account", "general_opening", "handoff"} ==>
      (k in fallbacks <==> k in other) && (k in fallbacks ==> fallbacks[k] == other[k])
    ensures FallbackResponse(normalizedText, productName, intent, fallbacks)
      == FallbackResponse(normalizedText, productName, intent, other)
  {
    var keys := RuleKeys(normalizedText, productName, intent);
    assert keys[0] in {"clarify_account", "general_opening", "handoff"};
    assert |keys| == 2 ==> keys[1] in {"clarify_account", "general_opening", "handoff"};
    if |keys| == 2 {
      assert keys[1..][0] == keys[1] && keys[1..][1..] == [];
    } else {
      assert keys[1..] == [];
    }
  }

  /** "i want to open an account", with no product and no intent, and only
      a `clarify_account` template, gets that template. */
  lemma OpenAnAccountExample()
    ensures FallbackResponse("i want to open an account", None, None, map["clarify_account" := "Which account?"])
      == "Which account?"
  {
    var text := "i want to open an account";
    ContainsMiddle("i want to open an ", "account", "");
    assert "i want to open an " + "account" + "" == text;
    AccountWithoutProduct(text, None, None, map["clarify_account" := "Which account?"]);
  }
}
