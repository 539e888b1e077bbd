/**
  `_detect_intent`: the first intent, in configuration order, one of whose
  keywords, lower-cased, is a substring of the normalized text.
 */
module Intent {
  import opened Wrappers
  import opened Text
  import opened Lexicon

  /** `_detect_intent(normalized_text, intent_keywords)`. */
  function DetectIntent(normalizedText: string, intentKeywords: Groups): (r: Option<string>)
    ensures r.None? <==> forall g :: 0 <= g < |intentKeywords| ==> !Mentions(normalizedText, intentKeywords[g].1)
    ensures forall k: nat :: IsFirstMention(intentKeywords, normalizedText, k) ==> r == Some(intentKeywords[k].0)
    ensures r.Some? ==> Lookup(intentKeywords, r.value).Some?
  {
    match FirstMention(intentKeywords, normalizedText)
    case None => None
    case Some(k) =>
      assert exists g :: 0 <= g < |intentKeywords| && intentKeywords[g].0 == intentKeywords[k].0;
      Some(intentKeywords[k].0)
  }

  /** Configuration order decides, not position in the text: with the
      balance intent listed first, "account balance" is a balance inquiry
      although "account" comes first in the text. */
  lemma ConfigOrderWins()
    ensures DetectIntent("account balance", [("balance_inquiry", ["balance"]), ("account_opening", ["account"])])
      == Some("balance_inquiry")
  {
    var groups: Groups := [("balance_inquiry", ["balance"]), ("account_opening", ["account"])];
    var text := "account balance";
    assert Lower("balance") == "balance";
    ContainsMiddle("account ", "balance", "");
    assert "account " + "balance" + "" == text;
    assert groups[0].1[0] == "balance";
    assert Contains(text, Lower(groups[0].1[0]));
    assert Mentions(text, groups[0].1);
    assert IsFirstMention(groups, text, 0);
  }
}
