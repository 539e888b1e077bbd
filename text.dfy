/**
  The Python `str` operations the understanding layer is built from, over ASCII:
  `lower`, `in`, `startswith`, `find`, `replace`, `join`,
  `split()`, `strip()` and `title()`. Each is a function. The lemmas relate
  `lower`, `in`, `replace`, `split()`, `strip()` and `title()` to an
  independent description of what they compute; `startswith` and `find` are
  described by their own contracts.
 */
module Text {
  import opened Wrappers

  /** Python truthiness of an optional string: present and non-empty. */
  predicate Truthy(o: Option<string>) {
    o.Some? && o.value != ""
  }

  // ----------------------------------------------------------------------
  // Characters

  /** `c.isspace()` restricted to ASCII: tab, line feed, vertical tab, form
      feed, carriage return (9..13), the separators 0x1C..0x1F, and space. */
  predicate IsSpace(c: char) {
    9 <= c as int <= 13 || 28 <= c as int <= 32
  }

  predicate IsUpper(c: char) { 'A' <= c <= 'Z' }

  predicate IsLowerLetter(c: char) { 'a' <= c <= 'z' }

  /** A cased character, as `str.title()` sees one, over ASCII. */
  predicate IsLetter(c: char) { IsUpper(c) || IsLowerLetter(c) }

  function ToLowerChar(c: char): (d: char)
    ensures !IsUpper(d)
    ensures IsLetter(d) == IsLetter(c) && IsSpace(d) == IsSpace(c)
  {
    if IsUpper(c) then (c as int + 32) as char else c
  }

  function ToUpperChar(c: char): (d: char)
    ensures !IsLowerLetter(d)
    ensures IsLetter(d) == IsLetter(c)
    ensures ToLowerChar(d) == ToLowerChar(c)
  {
    if IsLowerLetter(c) then (c as int - 32) as char else c
  }

  // ----------------------------------------------------------------------
  // str.lower()

  /** `s.lower()`: every ASCII capital replaced by its small letter. */
  function Lower(s: string): (r: string)
    ensures |r| == |s|
    ensures forall i :: 0 <= i < |s| ==> r[i] == ToLowerChar(s[i])
  {
    seq(|s|, i requires 0 <= i < |s| => ToLowerChar(s[i]))
  }

  /** No ASCII capital letter occurs in `s`. */
  predicate NoUpper(s: string) {
    forall i :: 0 <= i < |s| ==> !IsUpper(s[i])
  }

  lemma LowerIsLowercase(s: string)
    ensures NoUpper(Lower(s))
    ensures Lower(Lower(s)) == Lower(s)
  {
  }

  lemma LowerOfLowercase(s: string)
    requires NoUpper(s)
    ensures Lower(s) == s
  {
  }

  lemma LowerAppend(a: string, b: string)
    ensures Lower(a + b) == Lower(a) + Lower(b)
  {
  }

  // ----------------------------------------------------------------------
  // `p in s`, s.startswith(p), s.find(p)

  predicate StartsWith(s: string, p: string) {
    |p| <= |s| && s[..|p|] == p
  }

  /** `p in s`, scanning from the left; the empty string is in every string. */
  predicate Contains(s: string, p: string)
    decreases |s|
  {
    StartsWith(s, p) || (s != [] && Contains(s[1..], p))
  }

  /** `p` sits in `s` at position `i`. */
  predicate OccursAt(s: string, p: string, i: nat) {
    i + |p| <= |s| && s[i..i + |p|] == p
  }

  /** `p in s` holds exactly when `p` sits at some position of `s`. */
  lemma {:induction false} ContainsIffOccurs(s: string, p: string)
    ensures Contains(s, p) <==> exists i: nat :: OccursAt(s, p, i)
    decreases |s|
  {
    assert StartsWith(s, p) <==> OccursAt(s, p, 0);
    if s != [] {
      ContainsIffOccurs(s[1..], p);
      forall i: nat | OccursAt(s[1..], p, i) ensures OccursAt(s, p, i + 1) {
        assert s[1..][i..i + |p|] == s[i + 1..i + 1 + |p|];
      }
      if exists i: nat :: OccursAt(s, p, i) {
        var i: nat :| OccursAt(s, p, i);
        if i > 0 {
          assert s[1..][i - 1..i - 1 + |p|] == s[i..i + |p|];
          assert OccursAt(s[1..], p, i - 1);
        }
      }
    } else {
      if exists i: nat :: OccursAt(s, p, i) {
        var i: nat :| OccursAt(s, p, i);
        assert i == 0 && p == [];
      }
    }
  }

  /** `p` is in any string built around it. */
  lemma ContainsMiddle(a: string, p: string, c: string)
    ensures Contains(a + p + c, p)
  {
    assert OccursAt(a + p + c, p, |a|) by {
      assert (a + p + c)[|a|..|a| + |p|] == p;
    }
    ContainsIffOccurs(a + p + c, p);
  }

  /** An occurrence in `s[1..]` is one in `s`, one place further right. */
  lemma OccursInTail(s: string, p: string, i: nat)
    requires s != []
    ensures OccursAt(s[1..], p, i) <==> OccursAt(s, p, i + 1)
  {
    if i + 1 + |p| <= |s| {
      assert s[1..][i..i + |p|] == s[i + 1..i + 1 + |p|];
    }
  }

  /** `s.find(p)`, with `None` standing for -1. */
  function Find(s: string, p: string): (r: Option<int>)
    ensures r.None? <==> !Contains(s, p)
    ensures r.Some? ==> 0 <= r.value && OccursAt(s, p, r.value)
    ensures r.Some? ==> forall i :: 0 <= i < r.value ==> !OccursAt(s, p, i)
    decreases |s|
  {
    assert StartsWith(s, p) <==> OccursAt(s, p, 0);
    if StartsWith(s, p) then Some(0)
    else if s == [] then None
    else
      match Find(s[1..], p)
      case None => None
      case Some(i) =>
        forall j: nat | 0 < j
          ensures OccursAt(s, p, j) <==> OccursAt(s[1..], p, j - 1)
        {
          OccursInTail(s, p, j - 1);
        }
        Some(i + 1)
  }

  // ----------------------------------------------------------------------
  // s.replace(needle, repl)

  /** `s.replace("", repl)`: `repl` before every character and at the end. */
  function Interleave(s: string, repl: string): string
    decreases |s|
  {
    if s == [] then repl else repl + [s[0]] + Interleave(s[1..], repl)
  }

  /** `s.replace(needle, repl)`: left to right, every non-overlapping
      occurrence of `needle` is replaced by `repl`. */
  function ReplaceAll(s: string, needle: string, repl: string): string
    decreases |s|
  {
    if needle == [] then Interleave(s, repl)
    else if StartsWith(s, needle) then repl + ReplaceAll(s[|needle|..], needle, repl)
    else if s == [] then []
    else [s[0]] + ReplaceAll(s[1..], needle, repl)
  }

  /** `sep.join(parts)`. */
  function JoinWith(parts: seq<string>, sep: string): string
    decreases |parts|
  {
    if |parts| == 0 then "" else if |parts| == 1 then parts[0]
    else parts[0] + sep + JoinWith(parts[1..], sep)
  }

  /** What is not an occurrence of `needle` is left alone. */
  lemma {:induction false} ReplaceAbsent(s: string, needle: string, repl: string)
    requires !Contains(s, needle)
    ensures ReplaceAll(s, needle, repl) == s
    decreases |s|
  {
    if s != [] {
      ReplaceAbsent(s[1..], needle, repl);
    }
  }

  /** A needle holding a character that `s` lacks is not in `s`. */
  lemma CharAbsent(s: string, p: string, k: nat)
    requires k < |p| && p[k] !in s
    ensures !Contains(s, p)
  {
    ContainsIffOccurs(s, p);
  }

  /** No occurrence of `needle` starts on a character unequal to its first. */
  lemma HeadMismatch(s: string, needle: string, i: nat)
    requires needle != [] && i < |s| && s[i] != needle[0]
    ensures !OccursAt(s, needle, i)
  {
  }

  /** A needle with a character `s` lacks leaves `s` unchanged. */
  lemma ReplaceNoOccurrence(s: string, needle: string, repl: string, k: nat)
    requires k < |needle| && needle[k] !in s
    ensures ReplaceAll(s, needle, repl) == s
  {
    CharAbsent(s, needle, k);
    ReplaceAbsent(s, needle, repl);
  }

  /** Replacing a needle by a text without capitals keeps a text without capitals. */
  lemma {:induction false} ReplaceKeepsNoUpper(s: string, needle: string, repl: string)
    requires NoUpper(s) && NoUpper(repl)
    ensures NoUpper(ReplaceAll(s, needle, repl))
    decreases |s|
  {
    if needle == [] {
      InterleaveKeepsNoUpper(s, repl);
    } else if StartsWith(s, needle) {
      ReplaceKeepsNoUpper(s[|needle|..], needle, repl);
    } else if s != [] {
      ReplaceKeepsNoUpper(s[1..], needle, repl);
    }
  }

  lemma {:induction false} InterleaveKeepsNoUpper(s: string, repl: string)
    requires NoUpper(s) && NoUpper(repl)
    ensures NoUpper(Interleave(s, repl))
    decreases |s|
  {
    if s != [] {
      InterleaveKeepsNoUpper(s[1..], repl);
    }
  }

  /** A replacement of the same length as its needle keeps the length. */
  lemma {:induction false} ReplaceSameLength(s: string, needle: string, repl: string)
    requires needle != [] && |repl| == |needle|
    ensures |ReplaceAll(s, needle, repl)| == |s|
    decreases |s|
  {
    if StartsWith(s, needle) {
      ReplaceSameLength(s[|needle|..], needle, repl);
    } else if s != [] {
      ReplaceSameLength(s[1..], needle, repl);
    }
  }

  // ----------------------------------------------------------------------
  // s.split() and " ".join(s.split())

  /** Length of the leading run of non-whitespace characters. */
  function WordLength(s: string): (n: nat)
    ensures n <= |s|
    ensures forall i :: 0 <= i < n ==> !IsSpace(s[i])
    ensures n < |s| ==> IsSpace(s[n])
    decreases |s|
  {
    if s == [] || IsSpace(s[0]) then 0 else 1 + WordLength(s[1..])
  }

  /** A word of `s.split()`: non-empty, without whitespace. */
  predicate IsWord(w: string) {
    w != [] && forall i :: 0 <= i < |w| ==> !IsSpace(w[i])
  }

  /** `s.split()`: maximal runs of non-whitespace characters, in order. */
  function Words(s: string): (ws: seq<string>)
    ensures forall k :: 0 <= k < |ws| ==> IsWord(ws[k])
    decreases |s|
  {
    if s == [] then []
    else if IsSpace(s[0]) then Words(s[1..])
    else
      var n := WordLength(s);
      [s[..n]] + Words(s[n..])
  }

  /** `" ".join(s.strip().split())`. */
  function Collapse(s: string): string {
    JoinWith(Words(s), " ")
  }

  /** The only whitespace is single spaces strictly between two other characters. */
  predicate IsCollapsed(s: string) {
    forall i :: 0 <= i < |s| && IsSpace(s[i]) ==>
      s[i] == ' ' && 0 < i && i + 1 < |s| && !IsSpace(s[i - 1]) && !IsSpace(s[i + 1])
  }

  /** The characters of `s` that are not whitespace, in order. */
  function Visible(s: string): string
    decreases |s|
  {
    if s == [] then [] else (if IsSpace(s[0]) then [] else [s[0]]) + Visible(s[1..])
  }

  /** All words of `ws`, concatenated. */
  function Concat(ws: seq<string>): string
    decreases |ws|
  {
    if ws == [] then [] else ws[0] + Concat(ws[1..])
  }

  lemma {:induction false} VisibleAppend(a: string, b: string)
    ensures Visible(a + b) == Visible(a) + Visible(b)
    decreases |a|
  {
    if a != [] {
      VisibleAppend(a[1..], b);
      assert (a + b)[0] == a[0];
      assert (a + b)[1..] == a[1..] + b;
    } else {
      assert a + b == b;
    }
  }

  lemma {:induction false} VisibleOfWord(w: string)
    requires forall i :: 0 <= i < |w| ==> !IsSpace(w[i])
    ensures Visible(w) == w
    decreases |w|
  {
    if w != [] {
      VisibleOfWord(w[1..]);
    }
  }

  lemma {:induction false} VisibleIsConcatOfWords(s: string)
    ensures Visible(s) == Concat(Words(s))
    decreases |s|
  {
    if s != [] {
      if IsSpace(s[0]) {
        VisibleIsConcatOfWords(s[1..]);
      } else {
        var n := WordLength(s);
        assert s == s[..n] + s[n..];
        VisibleAppend(s[..n], s[n..]);
        VisibleOfWord(s[..n]);
        VisibleIsConcatOfWords(s[n..]);
      }
    }
  }

  lemma {:induction false} VisibleOfJoinedWords(ws: seq<string>)
    requires forall k :: 0 <= k < |ws| ==> IsWord(ws[k])
    ensures Visible(JoinWith(ws, " ")) == Concat(ws)
    decreases |ws|
  {
    if |ws| == 1 {
      VisibleOfWord(ws[0]);
      assert Concat(ws[1..]) == [];
    } else if |ws| > 1 {
      VisibleOfJoinedWords(ws[1..]);
      VisibleAppend(ws[0] + " ", JoinWith(ws[1..], " "));
      VisibleAppend(ws[0], " ");
      VisibleOfWord(ws[0]);
    }
  }

  /** Collapsing whitespace keeps every other character, in order. */
  lemma CollapseKeepsVisible(s: string)
    ensures Visible(Collapse(s)) == Visible(s)
  {
    VisibleIsConcatOfWords(s);
    VisibleOfJoinedWords(Words(s));
  }

  lemma {:induction false} JoinedWordsAreCollapsed(ws: seq<string>)
    requires forall k :: 0 <= k < |ws| ==> IsWord(ws[k])
    ensures IsCollapsed(JoinWith(ws, " "))
    ensures |ws| > 0 ==> JoinWith(ws, " ") != [] && !IsSpace(JoinWith(ws, " ")[0])
    decreases |ws|
  {
    if |ws| > 1 {
      JoinedWordsAreCollapsed(ws[1..]);
      var w, t := ws[0], JoinWith(ws[1..], " ");
      var j := w + " " + t;
      assert j == JoinWith(ws, " ");
      forall i | 0 <= i < |j| && IsSpace(j[i])
        ensures j[i] == ' ' && 0 < i && i + 1 < |j| && !IsSpace(j[i - 1]) && !IsSpace(j[i + 1])
      {
        if i > |w| {
          assert j[i] == t[i - |w| - 1];
          if i - 1 > |w| {
            assert j[i - 1] == t[i - 1 - |w| - 1];
          }
          assert j[i + 1] == t[i + 1 - |w| - 1];
        }
      }
    }
  }

  /** `" ".join(s.split())` leaves single spaces between words and nothing else. */
  lemma CollapseIsCollapsed(s: string)
    ensures IsCollapsed(Collapse(s))
  {
    JoinedWordsAreCollapsed(Words(s));
  }

  lemma {:induction false} WordLengthOfWord(w: string, t: string)
    requires forall i :: 0 <= i < |w| ==> !IsSpace(w[i])
    requires t == [] || IsSpace(t[0])
    ensures WordLength(w + t) == |w|
    decreases |w|
  {
    if w != [] {
      assert (w + t)[1..] == w[1..] + t;
      WordLengthOfWord(w[1..], t);
    }
  }

  /** `split()` cuts a word off exactly where whitespace begins. */
  lemma WordsOfRun(w: string, t: string)
    requires IsWord(w) && (t == [] || IsSpace(t[0]))
    ensures Words(w + t) == [w] + Words(t)
  {
    WordLengthOfWord(w, t);
    assert (w + t)[..|w|] == w && (w + t)[|w|..] == t;
  }

  /** `split()` drops a whitespace run, however long, without a trace. */
  lemma {:induction false} WordsOfSpaces(sp: string, t: string)
    requires forall i :: 0 <= i < |sp| ==> IsSpace(sp[i])
    ensures Words(sp + t) == Words(t)
    decreases |sp|
  {
    if sp != [] {
      assert (sp + t)[0] == sp[0];
      assert (sp + t)[1..] == sp[1..] + t;
      WordsOfSpaces(sp[1..], t);
    } else {
      assert sp + t == t;
    }
  }

  /** Two words with any whitespace run between them collapse to the two
      words with one space. */
  lemma CollapseTwoWords(a: string, sp: string, b: string)
    requires IsWord(a) && IsWord(b) && sp != []
    requires forall i :: 0 <= i < |sp| ==> IsSpace(sp[i])
    ensures Collapse(a + sp + b) == a + " " + b
  {
    WordsOfRun(b, "");
    assert b + "" == b;
    WordsOfSpaces(sp, b);
    WordsOfRun(a, sp + b);
    assert a + sp + b == a + (sp + b);
    assert Words(a + sp + b) == [a, b];
    assert JoinWith([a, b], " ") == a + " " + JoinWith([b], " ") by {
      assert [a, b][1..] == [b];
    }
  }

  /** A run of two spaces between words collapses to one. */
  lemma CollapseExample()
    ensures Collapse("ab  cd") == "ab cd"
  {
    assert "ab  cd" == "ab" + "  " + "cd";
    CollapseTwoWords("ab", "  ", "cd");
  }

  lemma {:induction false} WordsOfJoinedWords(ws: seq<string>)
    requires forall k :: 0 <= k < |ws| ==> IsWord(ws[k])
    ensures Words(JoinWith(ws, " ")) == ws
    decreases |ws|
  {
    if |ws| == 1 {
      WordLengthOfWord(ws[0], "");
      assert ws[0] + "" == ws[0];
      assert ws[0][..|ws[0]|] == ws[0];
    } else if |ws| > 1 {
      var w, t := ws[0], JoinWith(ws[1..], " ");
      var j := w + (" " + t);
      assert j == JoinWith(ws, " ");
      WordLengthOfWord(w, " " + t);
      assert j[..|w|] == w;
      assert j[|w|..] == " " + t;
      assert (" " + t)[1..] == t;
      WordsOfJoinedWords(ws[1..]);
    }
  }

  /** Collapsing whitespace twice is collapsing it once. */
  lemma CollapseIdempotent(s: string)
    ensures Collapse(Collapse(s)) == Collapse(s)
  {
    WordsOfJoinedWords(Words(s));
  }

  /** Collapsing keeps the words themselves, in order: only the whitespace
      between them changes. */
  lemma CollapseKeepsWords(s: string)
    ensures Words(Collapse(s)) == Words(s)
  {
    WordsOfJoinedWords(Words(s));
  }

  // ----------------------------------------------------------------------
  // s.strip()

  /** `s.lstrip()`. */
  function TrimStart(s: string): string
    decreases |s|
  {
    if s != [] && IsSpace(s[0]) then TrimStart(s[1..]) else s
  }

  /** `s.rstrip()`. */
  function TrimEnd(s: string): string
    decreases |s|
  {
    if s != [] && IsSpace(s[|s| - 1]) then TrimEnd(s[..|s| - 1]) else s
  }

  /** Neither end of `s` is whitespace. */
  predicate IsTrimmed(s: string) {
    s == [] || (!IsSpace(s[0]) && !IsSpace(s[|s| - 1]))
  }

  /** `s.strip()`. */
  function Strip(s: string): string {
    TrimEnd(TrimStart(s))
  }

  /** `lstrip()` drops exactly the leading whitespace. */
  lemma {:induction false} TrimStartDrops(s: string)
    ensures var r := TrimStart(s);
      && |r| <= |s| && r == s[|s| - |r|..]
      && (r == [] || !IsSpace(r[0]))
      && forall i :: 0 <= i < |s| - |r| ==> IsSpace(s[i])
    decreases |s|
  {
    if s != [] && IsSpace(s[0]) {
      TrimStartDrops(s[1..]);
    }
  }

  /** `rstrip()` drops exactly the trailing whitespace. */
  lemma {:induction false} TrimEndDrops(s: string)
    ensures var r := TrimEnd(s);
      && |r| <= |s| && r == s[..|r|]
      && (r == [] || !IsSpace(r[|r| - 1]))
      && forall i :: |r| <= i < |s| ==> IsSpace(s[i])
    decreases |s|
  {
    if s != [] && IsSpace(s[|s| - 1]) {
      TrimEndDrops(s[..|s| - 1]);
    }
  }

  /** `strip()` keeps the part of `s` between its leading and its trailing
      whitespace, and that part is trimmed. */
  lemma {:induction false} StripDrops(s: string)
    ensures var a := |s| - |TrimStart(s)|;
      && 0 <= a && a + |Strip(s)| <= |s|
      && Strip(s) == s[a..a + |Strip(s)|]
      && IsTrimmed(Strip(s))
      && (forall i :: 0 <= i < a ==> IsSpace(s[i]))
      && (forall i :: a + |Strip(s)| <= i < |s| ==> IsSpace(s[i]))
  {
    var t := TrimStart(s);
    var r := TrimEnd(t);
    TrimStartDrops(s);
    TrimEndDrops(t);
    StripPiece(s, t, r);
    assert r != [] ==> r[0] == t[0];
  }

  /** Where the right strip of the left strip sits in `s`, and that
      everything after it is whitespace. */
  lemma {:induction false} StripPiece(s: string, t: string, r: string)
    requires t == TrimStart(s) && r == TrimEnd(t)
    ensures |r| <= |t| <= |s|
    ensures r == s[|s| - |t|..|s| - |t| + |r|]
    ensures forall i :: |s| - |t| + |r| <= i < |s| ==> IsSpace(s[i])
  {
    var a := |s| - |t|;
    TrimStartDrops(s);
    TrimEndDrops(t);
    assert t == s[a..];
    assert r == t[..|r|];
    assert s[a..][..|r|] == s[a..a + |r|];
    forall i | a + |r| <= i < |s| ensures IsSpace(s[i]) {
      assert s[i] == t[i - a];
    }
  }

  lemma {:induction false} TrimStartLower(s: string)
    ensures TrimStart(Lower(s)) == Lower(TrimStart(s))
    decreases |s|
  {
    if s != [] {
      assert Lower(s)[1..] == Lower(s[1..]);
      TrimStartLower(s[1..]);
    }
  }

  lemma {:induction false} TrimEndLower(s: string)
    ensures TrimEnd(Lower(s)) == Lower(TrimEnd(s))
    decreases |s|
  {
    if s != [] {
      assert Lower(s)[..|s| - 1] == Lower(s[..|s| - 1]);
      TrimEndLower(s[..|s| - 1]);
    }
  }

  /** Lower-casing does not change what is whitespace, so it commutes with
      `strip()`. */
  lemma StripLower(s: string)
    ensures Strip(Lower(s)) == Lower(Strip(s))
  {
    TrimStartLower(s);
    TrimEndLower(TrimStart(s));
  }

  /** `strip()` removes whitespace around a word that has none at its ends. */
  lemma StripAround(s: string, before: string, w: string, after: string)
    requires s == before + w + after && w != [] && !IsSpace(w[0]) && !IsSpace(w[|w| - 1])
    requires forall i :: 0 <= i < |before| ==> IsSpace(before[i])
    requires forall i :: 0 <= i < |after| ==> IsSpace(after[i])
    ensures Strip(s) == w
  {
    TrimStartSpaces(before, w + after);
    assert s == before + (w + after);
    TrimEndSpaces(w, after);
  }

  lemma {:induction false} TrimStartSpaces(before: string, rest: string)
    requires forall i :: 0 <= i < |before| ==> IsSpace(before[i])
    requires rest != [] && !IsSpace(rest[0])
    ensures TrimStart(before + rest) == rest
    decreases |before|
  {
    if before != [] {
      assert (before + rest)[1..] == before[1..] + rest;
      TrimStartSpaces(before[1..], rest);
    } else {
      assert before + rest == rest;
    }
  }

  lemma {:induction false} TrimEndSpaces(w: string, after: string)
    requires forall i :: 0 <= i < |after| ==> IsSpace(after[i])
    requires w != [] && !IsSpace(w[|w| - 1])
    ensures TrimEnd(w + after) == w
    decreases |after|
  {
    if after != [] {
      assert (w + after)[..|w + after| - 1] == w + after[..|after| - 1];
      TrimEndSpaces(w, after[..|after| - 1]);
    } else {
      assert w + after == w;
    }
  }

  /** A string whose ends are not whitespace is its own `strip()`. */
  lemma StripOfTrimmed(s: string)
    requires IsTrimmed(s)
    ensures Strip(s) == s
  {
  }

  // ----------------------------------------------------------------------
  // s.title()

  /** `str.title()` from a state: `afterLetter` says whether the previous
      character was a letter. */
  function TitleFrom(s: string, afterLetter: bool): (r: string)
    ensures |r| == |s|
    decreases |s|
  {
    if s == [] then []
    else
      var c := s[0];
      var d := if !IsLetter(c) then c else if afterLetter then ToLowerChar(c) else ToUpperChar(c);
      [d] + TitleFrom(s[1..], IsLetter(c))
  }

  /** `s.title()`. */
  function Title(s: string): string {
    TitleFrom(s, false)
  }

  /** `s.title()` capitalises a letter exactly when it is first or the
      character directly before it is not a letter, lowers every other
      letter, and keeps the rest. */
  lemma {:induction false} TitleAt(s: string, afterLetter: bool, i: nat)
    requires i < |s|
    ensures TitleFrom(s, afterLetter)[i] ==
      if !IsLetter(s[i]) then s[i]
      else if (if i == 0 then afterLetter else IsLetter(s[i - 1])) then ToLowerChar(s[i])
      else ToUpperChar(s[i])
    decreases i
  {
    if i > 0 {
      TitleAt(s[1..], IsLetter(s[0]), i - 1);
    }
  }

  /** Title casing changes nothing but the case of letters. */
  lemma TitleOnlyChangesCase(s: string)
    ensures |Title(s)| == |s|
    ensures Lower(Title(s)) == Lower(s)
  {
    forall i | 0 <= i < |s| ensures Lower(Title(s))[i] == Lower(s)[i] {
      TitleAt(s, false, i);
    }
  }
}
