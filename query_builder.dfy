/**
  `_build_retrieval_query`: the candidate terms are the normalized text, the
  product name when the text does not already name it, the intent with
  underscores as spaces, four generic words and the intent's keywords; they
  are trimmed, blank ones dropped, and repeated ones (ignoring case) kept
  only the first time, then joined with single spaces.
 */
module QueryBuilder {
  import opened Wrappers
  import opened Text
  import opened Lexicon

  /** The words every query is expanded with. */
  const GENERIC_EXPANSION: seq<string> := ["features", "eligibility", "documents", "process"]

  /** `parts` once built: the text if non-empty, the product name if it is
      non-empty and its lower-case is not in the text, the intent if
      non-empty with `_` as spaces. */
  function Parts(normalizedText: string, productName: Option<string>, intent: Option<string>): seq<string> {
    var withText := if normalizedText != "" then [normalizedText] else [];
    var withProduct :=
      if Truthy(productName) && !Contains(normalizedText, Lower(productName.value))
      then withText + [productName.value] else withText;
    if Truthy(intent) then withProduct + [ReplaceAll(intent.value, "_", " ")] else withProduct
  }

  /** `expansion` once built: the generic words, then the keywords of a
      non-empty intent that names an entry of the keyword table. */
  function Expansion(intent: Option<string>, intentKeywords: Groups): seq<string> {
    if Truthy(intent) && Lookup(intentKeywords, intent.value).Some?
    then GENERIC_EXPANSION + Lookup(intentKeywords, intent.value).value
    else GENERIC_EXPANSION
  }

  /** `parts + expansion`, the list the dedup loop walks. */
  function Candidates(normalizedText: string, productName: Option<string>, intent: Option<string>,
                      intentKeywords: Groups): seq<string> {
    Parts(normalizedText, productName, intent) + Expansion(intent, intentKeywords)
  }

  /** The lower-cased terms: the `seen` set of the loop. */
  function KeySet(terms: seq<string>): set<string> {
    set i | 0 <= i < |terms| :: Lower(terms[i])
  }

  lemma KeySetAppend(terms: seq<string>, t: string)
    ensures KeySet(terms + [t]) == KeySet(terms) + {Lower(t)}
  {
    var ts := terms + [t];
    assert Lower(ts[|terms|]) == Lower(t);
    forall k | k in KeySet(terms) ensures k in KeySet(ts) {
      var i :| 0 <= i < |terms| && Lower(terms[i]) == k;
      assert ts[i] == terms[i];
    }
  }

  /** The loop's `ordered` list after the candidates `items`: each trimmed,
      kept when non-empty and not yet seen, ignoring case. */
  function Dedup(items: seq<string>): seq<string>
    decreases |items|
  {
    if items == [] then []
    else
      var prev := Dedup(items[..|items| - 1]);
      var token := Strip(items[|items| - 1]);
      if token != "" && Lower(token) !in KeySet(prev) then prev + [token] else prev
  }

  /** One step of `Dedup`, named. */
  lemma DedupStep(items: seq<string>, init: seq<string>, prev: seq<string>, token: string)
    requires items != [] && init == items[..|items| - 1]
    requires prev == Dedup(init) && token == Strip(items[|items| - 1])
    ensures token != "" && Lower(token) !in KeySet(prev) ==> Dedup(items) == prev + [token]
    ensures !(token != "" && Lower(token) !in KeySet(prev)) ==> Dedup(items) == prev
  {
  }

  /** One step of `Dedup` on a prefix of the candidates. */
  lemma DedupPrefixStep(items: seq<string>, i: nat, prev: seq<string>, token: string)
    requires i < |items| && prev == Dedup(items[..i]) && token == Strip(items[i])
    ensures token != "" && Lower(token) !in KeySet(prev) ==> Dedup(items[..i + 1]) == prev + [token]
    ensures !(token != "" && Lower(token) !in KeySet(prev)) ==> Dedup(items[..i + 1]) == prev
  {
    assert items[..i + 1][..i] == items[..i];
    DedupStep(items[..i + 1], items[..i], prev, token);
  }

  /** Every kept term is non-empty and trimmed. */
  lemma {:induction false} DedupTermsTrimmed(items: seq<string>)
    ensures forall i :: 0 <= i < |Dedup(items)| ==> Dedup(items)[i] != "" && IsTrimmed(Dedup(items)[i])
    decreases |items|
  {
    if items != [] {
      var init := items[..|items| - 1];
      DedupTermsTrimmed(init);
      StripDrops(items[|items| - 1]);
      DedupStep(items, init, Dedup(init), Strip(items[|items| - 1]));
    }
  }

  /** No two kept terms are equal ignoring case. */
  lemma {:induction false} DedupDistinct(items: seq<string>)
    ensures forall i, j :: 0 <= i < j < |Dedup(items)| ==> Lower(Dedup(items)[i]) != Lower(Dedup(items)[j])
    decreases |items|
  {
    if items != [] {
      var init := items[..|items| - 1];
      var prev := Dedup(init);
      var token := Strip(items[|items| - 1]);
      DedupDistinct(init);
      DedupStep(items, init, prev, token);
      if token != "" && Lower(token) !in KeySet(prev) {
        var r := prev + [token];
        forall i, j | 0 <= i < j < |r| ensures Lower(r[i]) != Lower(r[j]) {
          if j == |prev| {
            assert Lower(prev[i]) in KeySet(prev);
          } else {
            assert r[i] == prev[i] && r[j] == prev[j];
          }
        }
      }
    }
  }

  /** One step of `Dedup` seen through its keys: the last candidate's key
      is added when the candidate is not blank. */
  lemma DedupKeysStep(items: seq<string>)
    requires items != []
    ensures KeySet(Dedup(items)) == KeySet(Dedup(items[..|items| - 1]))
      + (if Strip(items[|items| - 1]) != "" then {Lower(Strip(items[|items| - 1]))} else {})
  {
    var init := items[..|items| - 1];
    var prev := Dedup(init);
    var token := Strip(items[|items| - 1]);
    DedupStep(items, init, prev, token);
    if token != "" && Lower(token) !in KeySet(prev) {
      KeySetAppend(prev, token);
    }
  }

  /** Every non-blank candidate is represented, ignoring case. */
  lemma {:induction false} DedupCovers(items: seq<string>)
    ensures forall i :: 0 <= i < |items| && Strip(items[i]) != "" ==> Lower(Strip(items[i])) in KeySet(Dedup(items))
    decreases |items|
  {
    if items != [] {
      var init := items[..|items| - 1];
      var last := Strip(items[|items| - 1]);
      var keys := KeySet(Dedup(items));
      DedupCovers(init);
      DedupKeysStep(items);
      assert KeySet(Dedup(init)) <= keys;
      assert last != "" ==> Lower(last) in keys;
      forall i | 0 <= i < |items| && Strip(items[i]) != "" ensures Lower(Strip(items[i])) in keys {
        if i < |init| {
          assert init[i] == items[i];
        }
      }
    }
  }

  /** Every kept key comes from some candidate. */
  lemma {:induction false} DedupKeysFromCandidates(items: seq<string>)
    ensures forall k :: k in KeySet(Dedup(items)) ==> exists i :: 0 <= i < |items| && Lower(Strip(items[i])) == k
    decreases |items|
  {
    if items != [] {
      var init := items[..|items| - 1];
      var n := |items| - 1;
      var keys := KeySet(Dedup(items));
      DedupKeysFromCandidates(init);
      DedupKeysStep(items);
      forall k | k in keys ensures exists i :: 0 <= i < |items| && Lower(Strip(items[i])) == k {
        if k in KeySet(Dedup(init)) {
          var i :| 0 <= i < |init| && Lower(Strip(init[i])) == k;
          assert init[i] == items[i];
        } else {
          assert Lower(Strip(items[n])) == k;
        }
      }
    }
  }

  /** `xs` is `ys` with some elements left out, the rest in order. */
  predicate Subsequence(xs: seq<string>, ys: seq<string>)
    decreases |ys|
  {
    if xs == [] then true
    else if ys == [] then false
    else
      || (xs[|xs| - 1] == ys[|ys| - 1] && Subsequence(xs[..|xs| - 1], ys[..|ys| - 1]))
      || Subsequence(xs, ys[..|ys| - 1])
  }

  /** Every candidate, trimmed. */
  function StripEach(items: seq<string>): (r: seq<string>)
    ensures |r| == |items|
    ensures forall i :: 0 <= i < |items| ==> r[i] == Strip(items[i])
  {
    seq(|items|, i requires 0 <= i < |items| => Strip(items[i]))
  }

  /** The kept terms are the trimmed candidates with some left out, in the
      order of the candidates. */
  lemma {:induction false} DedupIsSubsequence(items: seq<string>)
    ensures Subsequence(Dedup(items), StripEach(items))
    decreases |items|
  {
    if items != [] {
      var init := items[..|items| - 1];
      DedupIsSubsequence(init);
      var ys := StripEach(items);
      assert ys[..|ys| - 1] == StripEach(init);
      var prev := Dedup(init);
      var token := Strip(items[|items| - 1]);
      if token != "" && Lower(token) !in KeySet(prev) {
        var xs := prev + [token];
        assert xs[..|xs| - 1] == prev;
        assert Dedup(items) == xs;
      } else {
        assert Dedup(items) == prev;
        if prev != [] {
          assert Subsequence(prev, ys[..|ys| - 1]);
        }
      }
    }
  }

  /** The terms kept from a prefix of the candidates are a prefix of the
      terms kept from all of them: `ordered` is only ever appended to. */
  lemma {:induction false} DedupPrefix(items: seq<string>, n: nat)
    requires n <= |items|
    ensures Dedup(items[..n]) <= Dedup(items)
    decreases |items| - n
  {
    if n < |items| {
      DedupPrefix(items, n + 1);
      DedupPrefixStep(items, n, Dedup(items[..n]), Strip(items[n]));
    } else {
      assert items[..n] == items;
    }
  }

  /** The first non-blank candidate with a given key is the term kept for
      that key, exactly as trimmed, and it sits right after the terms kept
      from the candidates before it: the query keeps first-occurrence
      order, and a later spelling of the same word in other case neither
      replaces nor moves it. */
  lemma DedupKeepsFirst(items: seq<string>, j: nat)
    requires j < |items| && Strip(items[j]) != ""
    requires forall i :: 0 <= i < j ==> Lower(Strip(items[i])) != Lower(Strip(items[j]))
    ensures Strip(items[j]) in Dedup(items)
    ensures |Dedup(items[..j])| < |Dedup(items)| && Dedup(items)[|Dedup(items[..j])|] == Strip(items[j])
  {
    var prev := Dedup(items[..j]);
    var token := Strip(items[j]);
    DedupKeysFromCandidates(items[..j]);
    forall i | 0 <= i < j ensures Lower(Strip(items[..j][i])) != Lower(token) {
      assert items[..j][i] == items[i];
    }
    assert Lower(token) !in KeySet(prev);
    DedupPrefixStep(items, j, prev, token);
    DedupPrefix(items, j + 1);
    assert Dedup(items)[|prev|] == (prev + [token])[|prev|];
  }

  /** `" ".join` of terms the first of which is non-empty is non-empty. */
  lemma JoinNonEmpty(terms: seq<string>)
    requires terms != [] && terms[0] != ""
    ensures JoinWith(terms, " ") != ""
  {
    if |terms| > 1 {
      assert JoinWith(terms, " ") == terms[0] + " " + JoinWith(terms[1..], " ");
    }
  }

  /** A trimmed lower-case word is its own key. */
  lemma OwnKey(w: string)
    requires IsTrimmed(w) && NoUpper(w)
    ensures Strip(w) == w && Lower(w) == w
  {
    StripOfTrimmed(w);
    LowerOfLowercase(w);
  }

  /** The generic words are trimmed and lower-case. */
  lemma GenericWordsAreKeys()
    ensures forall g :: 0 <= g < |GENERIC_EXPANSION| ==>
      Strip(GENERIC_EXPANSION[g]) == GENERIC_EXPANSION[g] && Lower(GENERIC_EXPANSION[g]) == GENERIC_EXPANSION[g]
  {
    GenericWordIsKey("features");
    GenericWordIsKey("eligibility");
    GenericWordIsKey("documents");
    GenericWordIsKey("process");
  }

  lemma GenericWordIsKey(w: string)
    requires w == "features" || w == "eligibility" || w == "documents" || w == "process"
    ensures Strip(w) == w && Lower(w) == w
  {
    assert IsTrimmed(w);
    assert NoUpper(w);
    OwnKey(w);
  }

  /** The expansion starts with the generic words. */
  lemma ExpansionStartsGeneric(intent: Option<string>, intentKeywords: Groups)
    ensures |Expansion(intent, intentKeywords)| >= |GENERIC_EXPANSION|
    ensures forall g :: 0 <= g < |GENERIC_EXPANSION| ==> Expansion(intent, intentKeywords)[g] == GENERIC_EXPANSION[g]
  {
  }

  /** The candidates hold the generic words right after the parts. */
  lemma CandidatesHoldGeneric(normalizedText: string, productName: Option<string>,
                              intent: Option<string>, intentKeywords: Groups)
    ensures var items := Candidates(normalizedText, productName, intent, intentKeywords);
      var n := |Parts(normalizedText, productName, intent)|;
      && n + |GENERIC_EXPANSION| <= |items|
      && forall g :: 0 <= g < |GENERIC_EXPANSION| ==> items[n + g] == GENERIC_EXPANSION[g]
  {
    ExpansionStartsGeneric(intent, intentKeywords);
  }

  /** Candidates holding the generic words keep every one of them, ignoring
      case, as a term, and so join to a non-empty query. */
  lemma {:induction false} DedupHoldsGeneric(items: seq<string>, n: nat)
    requires n + |GENERIC_EXPANSION| <= |items|
    requires forall g :: 0 <= g < |GENERIC_EXPANSION| ==> items[n + g] == GENERIC_EXPANSION[g]
    ensures forall g :: 0 <= g < |GENERIC_EXPANSION| ==> GENERIC_EXPANSION[g] in KeySet(Dedup(items))
    ensures JoinWith(Dedup(items), " ") != ""
  {
    GenericWordsAreKeys();
    DedupCovers(items);
    forall g | 0 <= g < |GENERIC_EXPANSION| ensures GENERIC_EXPANSION[g] in KeySet(Dedup(items)) {
      assert Strip(items[n + g]) == GENERIC_EXPANSION[g];
    }
    var ordered := Dedup(items);
    assert GENERIC_EXPANSION[0] in KeySet(ordered);
    DedupTermsTrimmed(items);
    JoinNonEmpty(ordered);
  }

  /** Whatever the inputs, every generic word, ignoring case, is a term of
      the query, and so the query is never empty. */
  lemma QueryHoldsGenericWords(normalizedText: string, productName: Option<string>,
                               intent: Option<string>, intentKeywords: Groups)
    ensures forall g :: 0 <= g < |GENERIC_EXPANSION| ==>
      GENERIC_EXPANSION[g] in KeySet(Dedup(Candidates(normalizedText, productName, intent, intentKeywords)))
    ensures JoinWith(Dedup(Candidates(normalizedText, productName, intent, intentKeywords)), " ") != ""
  {
    var items := Candidates(normalizedText, productName, intent, intentKeywords);
    var n := |Parts(normalizedText, productName, intent)|;
    CandidatesHoldGeneric(normalizedText, productName, intent, intentKeywords);
    assert n + |GENERIC_EXPANSION| <= |items|;
    DedupHoldsGeneric(items, n);
  }

  /** What the candidates hold: the text first when it is non-empty; the
      product name when it is non-empty and not in the text; the intent
      with underscores as spaces; then the generic words and, for a
      configured intent, its keywords. */
  lemma CandidatesContent(normalizedText: string, productName: Option<string>, intent: Option<string>,
                          intentKeywords: Groups)
    ensures var parts := Parts(normalizedText, productName, intent);
      && |parts| <= 3
      && (normalizedText != "" ==> parts[0] == normalizedText)
      && (Truthy(productName) && !Contains(normalizedText, Lower(productName.value)) ==> productName.value in parts)
      && (Truthy(intent) ==> parts[|parts| - 1] == ReplaceAll(intent.value, "_", " "))
      && (Truthy(intent) && Lookup(intentKeywords, intent.value).Some? ==>
            Expansion(intent, intentKeywords) == GENERIC_EXPANSION + Lookup(intentKeywords, intent.value).value)
      && (!Truthy(intent) ==> Expansion(intent, intentKeywords) == GENERIC_EXPANSION)
  {
  }

  /** A product name the text already holds, up to case, adds no candidate. */
  lemma ProductAlreadyInText(normalizedText: string, product: string, intent: Option<string>,
                             intentKeywords: Groups)
    requires Contains(normalizedText, Lower(product))
    ensures Candidates(normalizedText, Some(product), intent, intentKeywords)
      == Candidates(normalizedText, None, intent, intentKeywords)
  {
  }

  /** `_build_retrieval_query(normalized_text, product_name, intent, intent_keywords)`. */
  method BuildRetrievalQuery(normalizedText: string, productName: Option<string>, intent: Option<string>,
                             intentKeywords: Groups) returns (query: string)
    ensures query == JoinWith(Dedup(Candidates(normalizedText, productName, intent, intentKeywords)), " ")
  {
    var parts: seq<string> := if normalizedText != "" then [normalizedText] else [];
    if Truthy(productName) && !Contains(normalizedText, Lower(productName.value)) {
      parts := parts + [productName.value];
    }
    if Truthy(intent) {
      parts := parts + [ReplaceAll(intent.value, "_", " ")];
    }
    var expansion := GENERIC_EXPANSION;
    if Truthy(intent) {
      var keywords := Lookup(intentKeywords, intent.value);
      if keywords.Some? {
        expansion := expansion + keywords.value;
      }
    }
    var items := parts + expansion;
    assert parts == Parts(normalizedText, productName, intent);
    assert expansion == Expansion(intent, intentKeywords);
    var seen: set<string> := {};
    var ordered: seq<string> := [];
    for i := 0 to |items|
      invariant ordered == Dedup(items[..i])
      invariant seen == KeySet(ordered)
    {
      var token := Strip(items[i]);
      var key := Lower(token);
      DedupPrefixStep(items, i, ordered, token);
      if token != "" && key !in seen {
        KeySetAppend(ordered, token);
        seen := seen + {key};
        ordered := ordered + [token];
      }
    }
    assert items[..|items|] == items;
    query := JoinWith(ordered, " ");
  }
}
