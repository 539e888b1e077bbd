/**
  `_normalize_transcript`: whitespace is collapsed, the text lower-cased and
  speech-to-text-corrected; then the first product group, in configuration
  order, with a synonym in the text is resolved to its display name, and
  every synonym of that group is rewritten to the lower-cased display name.
 */
module Normalizer {
  import opened Wrappers
  import opened Text
  import opened Lexicon
  import opened SttFixes
  import opened ProductMap

  /** `product_map.get(canonical) or canonical.replace("_", " ").title()`. */
  function DisplayName(canonical: string, productMap: map<string, string>): string {
    if canonical in productMap && productMap[canonical] != "" then productMap[canonical]
    else Title(ReplaceAll(canonical, "_", " "))
  }

  /** Without a catalog name, the display name is the key with underscores
      as spaces, title-cased: same length, same letters up to case, and
      empty only for the empty key. */
  lemma DisplayNameFromKey(canonical: string, productMap: map<string, string>)
    requires !(canonical in productMap && productMap[canonical] != "")
    ensures |DisplayName(canonical, productMap)| == |canonical|
    ensures Lower(DisplayName(canonical, productMap)) == Lower(ReplaceAll(canonical, "_", " "))
    ensures DisplayName(canonical, productMap) == "" <==> canonical == ""
  {
    ReplaceSameLength(canonical, "_", " ");
    TitleOnlyChangesCase(ReplaceAll(canonical, "_", " "));
  }

  /** With the map built from the catalog, a product key whose last kept
      record names it is shown by that record's name. */
  lemma DisplayNameFromCatalog(items: seq<CatalogItem>, i: nat)
    requires i < |items| && Keeps(items[i])
    requires forall j :: i < j < |items| && Keeps(items[j]) ==> items[j].id != items[i].id
    ensures DisplayName(items[i].id.value, CatalogMap(items)) == items[i].name.value
  {
    CatalogMapLastWins(items, i);
  }

  /** The text before product matching: collapsed, lower-cased, corrected. */
  function FixedText(text: string): string {
    ApplyFixes(STT_FIXES, Lower(Collapse(text)))
  }

  /** Each variant of the list, lower-cased, replaced in turn by `target`. */
  function RewriteVariants(s: string, variants: seq<string>, target: string): string
    decreases |variants|
  {
    if variants == [] then s
    else RewriteVariants(ReplaceAll(s, Lower(variants[0]), target), variants[1..], target)
  }

  /** What `_normalize_transcript` returns: the rewritten text and the
      resolved product name, if any. */
  function Normalize(text: string, groups: Groups, productMap: map<string, string>): (r: (string, Option<string>))
    ensures r.1.None? <==> forall g :: 0 <= g < |groups| ==> !Mentions(FixedText(text), groups[g].1)
    ensures r.1.None? ==> r.0 == FixedText(text)
    ensures forall k: nat :: IsFirstMention(groups, FixedText(text), k) ==>
      && r.1 == Some(DisplayName(groups[k].0, productMap))
      && r.0 == RewriteVariants(FixedText(text), groups[k].1, Lower(DisplayName(groups[k].0, productMap)))
  {
    var fixed := FixedText(text);
    match FirstMention(groups, fixed)
    case None => (fixed, None)
    case Some(k) =>
      var name := DisplayName(groups[k].0, productMap);
      (RewriteVariants(fixed, groups[k].1, Lower(name)), Some(name))
  }

  /** `_normalize_transcript(text, product_normalization, product_map)`. */
  method NormalizeTranscript(text: string, productNormalization: Groups, productMap: map<string, string>)
    returns (normalized: string, productName: Option<string>)
    ensures (normalized, productName) == Normalize(text, productNormalization, productMap)
  {
    var cleaned := Collapse(text);
    var lowered := Lower(cleaned);
    lowered := ApplySttFixes(lowered);
    ghost var fixed := lowered;
    for g := 0 to |productNormalization|
      invariant lowered == fixed
      invariant forall h :: 0 <= h < g ==> !Mentions(fixed, productNormalization[h].1)
    {
      var (canonical, variants) := productNormalization[g];
      for v := 0 to |variants|
        invariant forall j :: 0 <= j < v ==> !Contains(fixed, Lower(variants[j]))
      {
        var needle := Lower(variants[v]);
        if Contains(lowered, needle) {
          var name := DisplayName(canonical, productMap);
          for w := 0 to |variants|
            invariant RewriteVariants(lowered, variants[w..], Lower(name)) == RewriteVariants(fixed, variants, Lower(name))
          {
            assert variants[w..][1..] == variants[w + 1..];
            lowered := ReplaceAll(lowered, Lower(variants[w]), Lower(name));
          }
          assert IsFirstMention(productNormalization, fixed, g);
          return lowered, Some(name);
        }
      }
    }
    return lowered, None;
  }

  /** Rewriting to a target without capitals keeps a text without capitals. */
  lemma {:induction false} RewriteKeepsNoUpper(s: string, variants: seq<string>, target: string)
    requires NoUpper(s) && NoUpper(target)
    ensures NoUpper(RewriteVariants(s, variants, target))
    decreases |variants|
  {
    if variants != [] {
      ReplaceKeepsNoUpper(s, Lower(variants[0]), target);
      RewriteKeepsNoUpper(ReplaceAll(s, Lower(variants[0]), target), variants[1..], target);
    }
  }

  /** Variants none of which occur are not rewritten. */
  lemma {:induction false} RewriteAbsent(s: string, variants: seq<string>, target: string)
    requires forall j :: 0 <= j < |variants| ==> !Contains(s, Lower(variants[j]))
    ensures RewriteVariants(s, variants, target) == s
    decreases |variants|
  {
    if variants != [] {
      ReplaceAbsent(s, Lower(variants[0]), target);
      RewriteAbsent(s, variants[1..], target);
    }
  }

  /** The normalized text never holds a capital letter, whether or not a
      product was resolved. */
  lemma NormalizedIsLowercase(text: string, groups: Groups, productMap: map<string, string>)
    ensures NoUpper(Normalize(text, groups, productMap).0)
  {
    LowerIsLowercase(Collapse(text));
    SttFixesKeepLowercase(Lower(Collapse(text)));
    match FirstMention(groups, FixedText(text))
    case None =>
    case Some(k) =>
      var name := DisplayName(groups[k].0, productMap);
      LowerIsLowercase(name);
      RewriteKeepsNoUpper(FixedText(text), groups[k].1, Lower(name));
  }

  /** A synonym said on its own resolves to its group, provided no earlier
      group has a word inside it: first match wins, so an earlier group
      mentioned by the synonym takes precedence. */
  lemma WholeSynonymResolves(text: string, groups: Groups, productMap: map<string, string>, k: nat, j: nat)
    requires k < |groups| && j < |groups[k].1|
    requires FixedText(text) == Lower(groups[k].1[j])
    requires forall g :: 0 <= g < k ==> !Mentions(FixedText(text), groups[g].1)
    ensures Normalize(text, groups, productMap).1 == Some(DisplayName(groups[k].0, productMap))
  {
    var fixed := FixedText(text);
    ContainsMiddle([], fixed, []);
    assert [] + fixed + [] == fixed;
    assert Mentions(fixed, groups[k].1);
    assert IsFirstMention(groups, fixed, k);
  }

  /** Collapsing and lower-casing again changes nothing: the text handed to
      the corrections is already in normal form. */
  lemma CleanedIsStable(text: string)
    ensures Lower(Collapse(Lower(Collapse(text)))) == Lower(Collapse(text))
  {
    var c := Collapse(text);
    CollapseIsCollapsed(text);
    LowerCollapse(c);
    CollapseIdempotent(text);
    LowerIsLowercase(c);
  }

  /** Lower-casing commutes with collapsing whitespace. */
  lemma {:induction false} LowerCollapse(s: string)
    ensures Collapse(Lower(s)) == Lower(Collapse(s))
  {
    LowerWords(s);
    LowerJoin(Words(s));
  }

  /** Every string of `ws`, lower-cased. */
  function LowerEach(ws: seq<string>): (r: seq<string>)
    ensures |r| == |ws|
    ensures forall k :: 0 <= k < |ws| ==> r[k] == Lower(ws[k])
  {
    seq(|ws|, k requires 0 <= k < |ws| => Lower(ws[k]))
  }

  lemma {:induction false} WordLengthLower(s: string)
    ensures WordLength(Lower(s)) == WordLength(s)
    decreases |s|
  {
    if s != [] {
      assert Lower(s)[1..] == Lower(s[1..]);
      WordLengthLower(s[1..]);
    }
  }

  lemma {:induction false} LowerWords(s: string)
    ensures Words(Lower(s)) == LowerEach(Words(s))
    decreases |s|
  {
    if s != [] {
      var l := Lower(s);
      assert l[1..] == Lower(s[1..]);
      if IsSpace(s[0]) {
        LowerWords(s[1..]);
      } else {
        var n := WordLength(s);
        WordLengthLower(s);
        assert l[..n] == Lower(s[..n]);
        assert l[n..] == Lower(s[n..]);
        LowerWords(s[n..]);
      }
    }
  }

  lemma {:induction false} LowerJoin(ws: seq<string>)
    ensures JoinWith(LowerEach(ws), " ") == Lower(JoinWith(ws, " "))
    decreases |ws|
  {
    var lws := LowerEach(ws);
    if |ws| > 1 {
      LowerJoin(ws[1..]);
      assert lws[1..] == LowerEach(ws[1..]);
      LowerAppend(ws[0] + " ", JoinWith(ws[1..], " "));
      LowerAppend(ws[0], " ");
    }
  }
}
