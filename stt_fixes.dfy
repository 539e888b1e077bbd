/**
  The table of speech-to-text corrections and `_apply_stt_fixes`: each pair
  replaces every literal occurrence of its source, in table order, so a
  later pair sees the text the earlier ones produced.
 */
module SttFixes {
  import opened Text
  import opened SplitJoin

  /** `_STT_FIXES`: misrecognised substrings and their corrections, in order. */
  const STT_FIXES: seq<(string, string)> :=
    [("a count", "account"), ("a/c", "account"), ("a san", "asaan")]

  /** The pairs of `fixes` applied to `s` one after another. */
  function ApplyFixes(fixes: seq<(string, string)>, s: string): string
    decreases |fixes|
  {
    if fixes == [] then s
    else ApplyFixes(fixes[1..], ReplaceAll(s, fixes[0].0, fixes[0].1))
  }

  /** `_apply_stt_fixes(text)`: the loop that reassigns `normalized` once per pair. */
  method ApplySttFixes(text: string) returns (normalized: string)
    ensures normalized == ApplyFixes(STT_FIXES, text)
  {
    normalized := text;
    for i := 0 to |STT_FIXES|
      invariant ApplyFixes(STT_FIXES[i..], normalized) == ApplyFixes(STT_FIXES, text)
    {
      var (src, target) := STT_FIXES[i];
      assert STT_FIXES[i..][1..] == STT_FIXES[i + 1..];
      normalized := ReplaceAll(normalized, src, target);
    }
  }

  /** Applying two tables in a row is applying their concatenation: the
      second sees what the first produced. */
  lemma {:induction false} ApplyFixesAppend(first: seq<(string, string)>, second: seq<(string, string)>, s: string)
    ensures ApplyFixes(first + second, s) == ApplyFixes(second, ApplyFixes(first, s))
    decreases |first|
  {
    if first != [] {
      assert (first + second)[1..] == first[1..] + second;
      ApplyFixesAppend(first[1..], second, ReplaceAll(s, first[0].0, first[0].1));
    } else {
      assert first + second == second;
    }
  }

  /** A text holding none of the sources comes out unchanged. */
  lemma {:induction false} ApplyFixesAbsent(fixes: seq<(string, string)>, s: string)
    requires forall i :: 0 <= i < |fixes| ==> !Contains(s, fixes[i].0)
    ensures ApplyFixes(fixes, s) == s
    decreases |fixes|
  {
    if fixes != [] {
      ReplaceAbsent(s, fixes[0].0, fixes[0].1);
      ApplyFixesAbsent(fixes[1..], s);
    }
  }

  /** Corrections without capitals keep a lower-case text lower-case. */
  lemma {:induction false} ApplyFixesKeepsNoUpper(fixes: seq<(string, string)>, s: string)
    requires NoUpper(s)
    requires forall i :: 0 <= i < |fixes| ==> NoUpper(fixes[i].1)
    ensures NoUpper(ApplyFixes(fixes, s))
    decreases |fixes|
  {
    if fixes != [] {
      ReplaceKeepsNoUpper(s, fixes[0].0, fixes[0].1);
      ApplyFixesKeepsNoUpper(fixes[1..], ReplaceAll(s, fixes[0].0, fixes[0].1));
    }
  }

  /** The corrections of `STT_FIXES` are lower-case. */
  lemma SttFixesKeepLowercase(s: string)
    requires NoUpper(s)
    ensures NoUpper(ApplyFixes(STT_FIXES, s))
  {
    assert NoUpper("account") && NoUpper("asaan");
    ApplyFixesKeepsNoUpper(STT_FIXES, s);
  }

  /** The table of three pairs, unfolded. */
  lemma ApplyThree(fixes: seq<(string, string)>, s: string)
    requires |fixes| == 3
    ensures ApplyFixes(fixes, s) ==
      ReplaceAll(ReplaceAll(ReplaceAll(s, fixes[0].0, fixes[0].1), fixes[1].0, fixes[1].1), fixes[2].0, fixes[2].1)
  {
    var s1 := ReplaceAll(s, fixes[0].0, fixes[0].1);
    var s2 := ReplaceAll(s1, fixes[1].0, fixes[1].1);
    var s3 := ReplaceAll(s2, fixes[2].0, fixes[2].1);
    var f1 := fixes[1..];
    var f2 := f1[1..];
    assert f1[0] == fixes[1] && f2[0] == fixes[2] && f2[1..] == [];
    assert ApplyFixes(f2, s2) == ApplyFixes(f2[1..], s3) == s3;
    assert ApplyFixes(f1, s1) == ApplyFixes(f2, s2);
  }

  /** With the one-pair table {"a count": "account"}, "open a count please"
      becomes "open account please". */
  lemma OnePairExample()
    ensures ApplyFixes([("a count", "account")], "open a count please") == "open account please"
  {
    OnePairSplit("open a count please", "open account please", "open ", "a count", " please", "account");
  }

  lemma OnePairSplit(s: string, t: string, a: string, src: string, c: string, target: string)
    requires s == "open a count please" && t == "open account please"
    requires a == "open " && src == "a count" && c == " please" && target == "account"
    ensures ApplyFixes([(src, target)], s) == t
  {
    assert s == a + src + c;
    assert t == a + target + c;
    assert src[0] !in a && src[6] !in c;
    ReplaceOnce(s, a, src, c, target, t, 6);
    assert [(src, target)][1..] == [];
  }

  /** Three pairs, each step known, compose. */
  lemma ThreeSteps(fixes: seq<(string, string)>, s: string, s1: string, s2: string, s3: string)
    requires |fixes| == 3
    requires ReplaceAll(s, fixes[0].0, fixes[0].1) == s1
    requires ReplaceAll(s1, fixes[1].0, fixes[1].1) == s2
    requires ReplaceAll(s2, fixes[2].0, fixes[2].1) == s3
    ensures ApplyFixes(fixes, s) == s3
  {
    ApplyThree(fixes, s);
  }

  /** `s` is `a + src + c` with `src` found once, so the rewrite gives `t`.
      Binding `s` and `t` lets a literal example prove the concatenations
      first and then match this ensures directly. */
  lemma ReplaceOnce(s: string, a: string, src: string, c: string, target: string, t: string, k: nat)
    requires s == a + src + c && t == a + target + c
    requires src != [] && src[0] !in a && k < |src| && src[k] !in c
    ensures ReplaceAll(s, src, target) == t
  {
    ReplaceOneOccurrence(a, src, c, target, k);
  }

  /** With the real table, "a/c kholna hai" becomes "account kholna hai":
      the first pair finds nothing, the second fires, the third finds nothing. */
  lemma SttTableExample()
    ensures ApplyFixes(STT_FIXES, "a/c kholna hai") == "account kholna hai"
  {
    var s, t := "a/c kholna hai", "account kholna hai";
    TableExampleFirst(s);
    TableExampleSecond(s, t);
    TableExampleThird(t);
    ThreeSteps(STT_FIXES, s, s, t, t);
  }

  lemma TableExampleFirst(s: string)
    requires s == "a/c kholna hai"
    ensures ReplaceAll(s, "a count", "account") == s
  {
    assert "a count"[4] !in s;
    ReplaceNoOccurrence(s, "a count", "account", 4);
  }

  lemma TableExampleSecond(s: string, t: string)
    requires s == "a/c kholna hai" && t == "account kholna hai"
    ensures ReplaceAll(s, "a/c", "account") == t
  {
    var a, src, c := "", "a/c", " kholna hai";
    assert s == a + src + c;
    assert t == a + "account" + c;
    assert src[0] !in a && src[1] !in c;
    ReplaceOnce(s, a, src, c, "account", t, 1);
  }

  lemma TableExampleThird(t: string)
    requires t == "account kholna hai"
    ensures ReplaceAll(t, "a san", "asaan") == t
  {
    assert "a san"[2] !in t;
    ReplaceNoOccurrence(t, "a san", "asaan", 2);
  }

  /** A correction fires inside a longer word: "kya count" becomes "kyaccount". */
  lemma SttInsideWordExample()
    ensures ApplyFixes(STT_FIXES, "kya count") == "kyaccount"
  {
    var s, t := "kya count", "kyaccount";
    InsideWordFirst(s, t);
    InsideWordRest(t);
    ThreeSteps(STT_FIXES, s, t, t, t);
  }

  lemma InsideWordFirst(s: string, t: string)
    requires s == "kya count" && t == "kyaccount"
    ensures ReplaceAll(s, "a count", "account") == t
  {
    var a, src, c := "ky", "a count", "";
    assert s == a + src + c;
    assert t == a + "account" + c;
    assert src[0] !in a && src[0] !in c;
    ReplaceOnce(s, a, src, c, "account", t, 0);
  }

  lemma InsideWordRest(t: string)
    requires t == "kyaccount"
    ensures ReplaceAll(t, "a/c", "account") == t
    ensures ReplaceAll(t, "a san", "asaan") == t
  {
    assert "a/c"[1] !in t && "a san"[2] !in t;
    ReplaceNoOccurrence(t, "a/c", "account", 1);
    ReplaceNoOccurrence(t, "a san", "asaan", 2);
  }
}
