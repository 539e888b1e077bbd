/**
  The text handed to product matching is a fixed point of its own
  preparation: once collapsed, lower-cased and corrected, doing it again
  changes nothing, because no correction of the table can bring back a
  source it removed or a second space.
 */
module FixStability {
  import opened Text
  import opened ReplaceLaws
  import opened SttFixes
  import opened Normalizer

  lemma CountApartAccount()
    ensures Apart("a count", "account")
  {
  }

  lemma SlashApartAccount()
    ensures Apart("a/c", "account")
  {
  }

  lemma SanApartAsaan()
    ensures Apart("a san", "asaan")
  {
  }

  lemma CountApartAsaan()
    ensures Apart("a count", "asaan")
  {
  }

  lemma SlashApartAsaan()
    ensures Apart("a/c", "asaan")
  {
  }

  /** The corrections are single words. */
  lemma CorrectionsAreWords()
    ensures IsWord("account") && IsWord("asaan")
  {
  }

  /** After the three corrections a collapsed text is still collapsed and
      holds none of the sources: each pass removes its own source, and the
      inserted word cannot complete one of the sources handled before. */
  lemma SttFixesLeaveNoSource(s: string)
    requires IsCollapsed(s)
    ensures IsCollapsed(ApplyFixes(STT_FIXES, s))
    ensures forall i :: 0 <= i < |STT_FIXES| ==> !Contains(ApplyFixes(STT_FIXES, s), STT_FIXES[i].0)
  {
    ApplyThree(STT_FIXES, s);
    CorrectionsAreWords();
    var y1 := ReplaceAll(s, "a count", "account");
    CountApartAccount();
    ReplaceKeepsCollapsed(s, "a count", "account");
    ReplaceAvoids(s, "a count", "account", "a count");
    var y2 := ReplaceAll(y1, "a/c", "account");
    SlashApartAccount();
    ReplaceKeepsCollapsed(y1, "a/c", "account");
    ReplaceAvoids(y1, "a/c", "account", "a/c");
    ReplaceAvoids(y1, "a/c", "account", "a count");
    var y3 := ReplaceAll(y2, "a san", "asaan");
    SanApartAsaan();
    CountApartAsaan();
    SlashApartAsaan();
    ReplaceKeepsCollapsed(y2, "a san", "asaan");
    ReplaceAvoids(y2, "a san", "asaan", "a san");
    ReplaceAvoids(y2, "a san", "asaan", "a count");
    ReplaceAvoids(y2, "a san", "asaan", "a/c");
    assert ApplyFixes(STT_FIXES, s) == y3;
  }

  /** `FixedText` is idempotent: the prepared text is prepared already. */
  lemma FixedTextIdempotent(text: string)
    ensures FixedText(FixedText(text)) == FixedText(text)
  {
    var c := Collapse(text);
    var l := Lower(c);
    CollapseIsCollapsed(text);
    CollapseIdempotent(text);
    LowerCollapse(c);
    CollapseIsCollapsed(l);
    assert IsCollapsed(l);
    LowerIsLowercase(c);
    var y := FixedText(text);
    assert y == ApplyFixes(STT_FIXES, l);
    SttFixesLeaveNoSource(l);
    SttFixesKeepLowercase(l);
    CollapseOfCollapsed(y);
    LowerOfLowercase(y);
    ApplyFixesAbsent(STT_FIXES, y);
  }
}
