/**
  The ordered configuration lists of the voice configuration: intent names
  with their keywords, and canonical product keys with their synonyms. A
  JSON object read into a Python dict is iterated in insertion order, and
  that order decides which entry wins, so each is a sequence of pairs.
 */
module Lexicon {
  import opened Wrappers
  import opened Text

  /** Names, each with its ordered list of words, in configuration order. */
  type Groups = seq<(string, seq<string>)>

  /** Some word of `words`, lower-cased, is a substring of `text`. */
  predicate Mentions(text: string, words: seq<string>) {
    exists j :: 0 <= j < |words| && Contains(text, Lower(words[j]))
  }

  /** `groups[k]` is mentioned by `text` and no earlier group is. */
  predicate IsFirstMention(groups: Groups, text: string, k: nat) {
    && k < |groups|
    && Mentions(text, groups[k].1)
    && forall g :: 0 <= g < k ==> !Mentions(text, groups[g].1)
  }

  /** The nested first-match scan: the position of the first group, in
      configuration order, with a word that occurs in `text`. */
  function FirstMention(groups: Groups, text: string): (r: Option<nat>)
    ensures r.None? <==> forall g :: 0 <= g < |groups| ==> !Mentions(text, groups[g].1)
    ensures forall k: nat :: IsFirstMention(groups, text, k) <==> r == Some(k)
    decreases |groups|
  {
    if groups == [] then None
    else if Mentions(text, groups[0].1) then Some(0)
    else
      match FirstMention(groups[1..], text)
      case None => None
      case Some(k) => Some(k + 1)
  }

  /** `groups.get(key)`: the words of the entry named `key`. A Python dict
      has one entry per key; here the first entry with that name answers. */
  function Lookup(groups: Groups, key: string): (r: Option<seq<string>>)
    ensures r.None? <==> forall g :: 0 <= g < |groups| ==> groups[g].0 != key
    ensures r.Some? ==> exists g :: 0 <= g < |groups| && groups[g] == (key, r.value)
    decreases |groups|
  {
    if groups == [] then None
    else if groups[0].0 == key then Some(groups[0].1)
    else Lookup(groups[1..], key)
  }
}
