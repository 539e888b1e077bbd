/**
  What `str.replace` leaves behind: the needle and texts that cannot
  overlap the replacement are gone afterwards, and single spaces stay
  single when the replacement is a word. Together these show that the
  speech-to-text corrections cannot reintroduce what they remove.
 */
module ReplaceLaws {
  import opened Text
  import opened SplitJoin

  /** No occurrence of `p` can overlap the replacement text `r`: where a
      character of `p` after its first lines up with the start of `r`, or a
      character of `r` lines up with the start of `p`, the next characters
      already differ. */
  predicate Apart(p: string, r: string) {
    && p != [] && r != []
    && (forall k :: 0 < k < |p| && p[k] == r[0] ==> k + 1 < |p| && 1 < |r| && p[k + 1] != r[1])
    && (forall k :: 0 <= k < |r| && r[k] == p[0] ==> k + 1 < |r| && 1 < |p| && r[k + 1] != p[1])
  }

  /** A piece of a text without `p` is without `p`. */
  lemma NoneInPiece(s: string, p: string, a: nat, b: nat)
    requires a <= b <= |s| && !Contains(s, p)
    ensures !Contains(s[a..b], p)
  {
    var t := s[a..b];
    ContainsIffOccurs(s, p);
    ContainsIffOccurs(t, p);
    forall i: nat | OccursAt(t, p, i) ensures OccursAt(s, p, a + i) {
      var y := s[a + i..a + i + |p|];
      forall m | 0 <= m < |p| ensures y[m] == p[m] {
        assert p[m] == t[i..i + |p|][m] == t[i + m];
      }
      assert y == p;
    }
  }

  /** Gluing `r` between two texts without `p` makes no `p` when `p` and
      `r` are apart. */
  lemma ConcatAvoids(u: string, r: string, v: string, p: string)
    requires Apart(p, r) && !Contains(u, p) && !Contains(v, p)
    ensures !Contains(u + r + v, p)
  {
    var t := u + r + v;
    ContainsIffOccurs(u, p);
    ContainsIffOccurs(v, p);
    ContainsIffOccurs(t, p);
    forall i: nat ensures !OccursAt(t, p, i) {
      if i + |p| > |t| {
      } else if i + |p| <= |u| {
        InFirstPiece(u, r + v, p, i);
        assert u + r + v == u + (r + v);
        assert !OccursAt(u, p, i);
      } else if i < |u| {
        StraddleIntoRepl(u, r, v, p, i);
      } else if i < |u| + |r| {
        StartInRepl(u, r, v, p, i);
      } else {
        InLastPiece(u + r, v, p, i);
        assert !OccursAt(v, p, i - |u + r|);
      }
    }
  }

  lemma InFirstPiece(a: string, b: string, p: string, i: nat)
    requires i + |p| <= |a|
    ensures (a + b)[i..i + |p|] == a[i..i + |p|]
  {
    assert (a + b)[..|a|] == a;
  }

  lemma InLastPiece(a: string, b: string, p: string, i: nat)
    requires |a| <= i && i + |p| <= |a| + |b|
    ensures (a + b)[i..i + |p|] == b[i - |a|..i - |a| + |p|]
  {
    assert (a + b)[|a|..] == b;
  }

  /** An occurrence starting before `r` runs into `r`'s first characters. */
  lemma StraddleIntoRepl(u: string, r: string, v: string, p: string, i: nat)
    requires Apart(p, r) && i < |u| < i + |p| && i + |p| <= |u| + |r| + |v|
    ensures (u + r + v)[i..i + |p|] != p
  {
    var t := u + r + v;
    var x := t[i..i + |p|];
    var k := |u| - i;
    assert x[k] == t[|u|] == r[0];
    if k + 1 < |p| && 1 < |r| {
      assert x[k + 1] == t[|u| + 1] == r[1];
    }
  }

  /** An occurrence starting inside `r` begins with a character of `r`. */
  lemma StartInRepl(u: string, r: string, v: string, p: string, i: nat)
    requires Apart(p, r) && |u| <= i < |u| + |r| && i + |p| <= |u| + |r| + |v|
    ensures (u + r + v)[i..i + |p|] != p
  {
    var t := u + r + v;
    var x := t[i..i + |p|];
    var k := i - |u|;
    assert x[0] == t[i] == r[k];
    if k + 1 < |r| && 1 < |p| {
      assert x[1] == t[i + 1] == r[k + 1];
    }
  }

  /** After `s.replace(needle, repl)` the text holds no `p` apart from
      `repl`: neither the needle itself nor a `p` that `s` did not hold. */
  lemma {:induction false} ReplaceAvoids(s: string, needle: string, repl: string, p: string)
    requires needle != [] && Apart(p, repl)
    requires p == needle || !Contains(s, p)
    ensures !Contains(ReplaceAll(s, needle, repl), p)
    decreases |s|
  {
    if !Contains(s, needle) {
      ReplaceAbsent(s, needle, repl);
    } else {
      var j := FirstOccurrence(s, needle);
      ReplaceAtFirst(s, needle, repl, j);
      var u, w := s[..j], s[j + |needle|..];
      if p == needle {
        NoNeedleBefore(s, needle, j);
      } else {
        NoneInPiece(s, p, 0, j);
        NoneInPiece(s, p, j + |needle|, |s|);
        assert s[j + |needle|..|s|] == w;
      }
      ReplaceAvoids(w, needle, repl, p);
      ConcatAvoids(u, repl, ReplaceAll(w, needle, repl), p);
    }
  }

  /** The leftmost occurrence of a needle `s` holds. */
  lemma FirstOccurrence(s: string, needle: string) returns (j: nat)
    requires Contains(s, needle)
    ensures OccursAt(s, needle, j)
    ensures forall i :: 0 <= i < j ==> !OccursAt(s, needle, i)
  {
    j := Find(s, needle).value;
  }

  /** Before the leftmost occurrence there is none. */
  lemma NoNeedleBefore(s: string, needle: string, j: nat)
    requires needle != [] && j <= |s|
    requires forall i :: 0 <= i < j ==> !OccursAt(s, needle, i)
    ensures !Contains(s[..j], needle)
  {
    var u := s[..j];
    ContainsIffOccurs(u, needle);
    forall i: nat ensures !OccursAt(u, needle, i) {
      if i + |needle| <= j {
        assert i < j && !OccursAt(s, needle, i);
        assert u[i..i + |needle|] == s[i..i + |needle|];
      }
    }
  }

  /** Each whitespace character is a space with no whitespace beside it. */
  predicate Spaced(s: string) {
    forall i :: 0 <= i < |s| && IsSpace(s[i]) ==>
      s[i] == ' ' && (0 < i ==> !IsSpace(s[i - 1])) && (i + 1 < |s| ==> !IsSpace(s[i + 1]))
  }

  lemma CollapsedIsSpaced(s: string)
    ensures IsCollapsed(s) <==> Spaced(s) && IsTrimmed(s)
  {
  }

  /** `s.replace(needle, repl)` is empty only for an empty `s`, and starts
      with the first character of `s` or of `repl`. */
  lemma ReplaceHead(s: string, needle: string, repl: string)
    requires needle != [] && repl != []
    ensures var t := ReplaceAll(s, needle, repl);
      && (t == [] <==> s == [])
      && (s != [] ==> t[0] == s[0] || t[0] == repl[0])
  {
    if StartsWith(s, needle) {
      assert ReplaceAll(s, needle, repl) == repl + ReplaceAll(s[|needle|..], needle, repl);
    } else if s != [] {
      assert ReplaceAll(s, needle, repl) == [s[0]] + ReplaceAll(s[1..], needle, repl);
    }
  }

  /** `s.replace(needle, repl)` ends with the last character of `s` or of `repl`. */
  lemma {:induction false} ReplaceLast(s: string, needle: string, repl: string)
    requires needle != [] && repl != [] && s != []
    ensures var t := ReplaceAll(s, needle, repl);
      t != [] && (t[|t| - 1] == s[|s| - 1] || t[|t| - 1] == repl[|repl| - 1])
    decreases |s|
  {
    var t := ReplaceAll(s, needle, repl);
    var w := if StartsWith(s, needle) then s[|needle|..] else s[1..];
    var v := ReplaceAll(w, needle, repl);
    assert t == (if StartsWith(s, needle) then repl else [s[0]]) + v;
    if w != [] {
      ReplaceLast(w, needle, repl);
      assert w[|w| - 1] == s[|s| - 1];
      assert t[|t| - 1] == v[|v| - 1];
    } else {
      assert v == [];
    }
  }

  /** Replacing with a word keeps every space single. */
  lemma {:induction false} ReplaceKeepsSpaced(s: string, needle: string, repl: string)
    requires needle != [] && IsWord(repl) && Spaced(s)
    ensures Spaced(ReplaceAll(s, needle, repl))
    decreases |s|
  {
    if StartsWith(s, needle) {
      var w := s[|needle|..];
      assert Spaced(w) by {
        forall i | 0 <= i < |w| ensures w[i] == s[i + |needle|] {
        }
      }
      ReplaceKeepsSpaced(w, needle, repl);
      var v := ReplaceAll(w, needle, repl);
      var t := repl + v;
      forall i | 0 <= i < |t| && IsSpace(t[i])
        ensures t[i] == ' ' && (0 < i ==> !IsSpace(t[i - 1])) && (i + 1 < |t| ==> !IsSpace(t[i + 1]))
      {
        assert t[i] == v[i - |repl|];
        if i + 1 < |t| {
          assert t[i + 1] == v[i + 1 - |repl|];
        }
        if i - 1 >= |repl| {
          assert t[i - 1] == v[i - 1 - |repl|];
        }
      }
    } else if s != [] {
      var w := s[1..];
      ReplaceKeepsSpaced(w, needle, repl);
      ReplaceHead(w, needle, repl);
      var v := ReplaceAll(w, needle, repl);
      var t := [s[0]] + v;
      forall i | 0 <= i < |t| && IsSpace(t[i])
        ensures t[i] == ' ' && (0 < i ==> !IsSpace(t[i - 1])) && (i + 1 < |t| ==> !IsSpace(t[i + 1]))
      {
        if i == 0 {
          if 1 < |t| {
            assert t[1] == v[0];
          }
        } else {
          assert t[i] == v[i - 1];
          if i == 1 {
            assert v[0] == s[1];
          }
          if i + 1 < |t| {
            assert t[i + 1] == v[i];
          }
        }
      }
    }
  }

  /** Replacing with a word keeps a collapsed text collapsed. */
  lemma ReplaceKeepsCollapsed(s: string, needle: string, repl: string)
    requires needle != [] && IsWord(repl) && IsCollapsed(s)
    ensures IsCollapsed(ReplaceAll(s, needle, repl))
  {
    CollapsedIsSpaced(s);
    ReplaceKeepsSpaced(s, needle, repl);
    ReplaceHead(s, needle, repl);
    if s != [] {
      ReplaceLast(s, needle, repl);
    }
    CollapsedIsSpaced(ReplaceAll(s, needle, repl));
  }

  /** A collapsed text is its own collapse. */
  lemma {:induction false} CollapseOfCollapsed(s: string)
    requires IsCollapsed(s)
    ensures Collapse(s) == s
    decreases |s|
  {
    if s != [] {
      var k := WordLength(s);
      if k == |s| {
        assert s[..k] == s && s[k..] == [];
        assert Words(s) == [s];
      } else {
        var w := s[k + 1..];
        CollapsedAfterSpace(s, k);
        CollapseOfCollapsed(w);
        WordsAfterSpace(s, k);
        var ws := Words(s);
        assert ws == [s[..k]] + Words(w);
        assert ws[1..] == Words(w);
        assert s == s[..k] + " " + w;
      }
    }
  }

  /** What follows a space of a collapsed text is collapsed, and not empty. */
  lemma CollapsedAfterSpace(s: string, k: nat)
    requires IsCollapsed(s) && k < |s| && IsSpace(s[k])
    ensures s[k] == ' ' && k + 1 < |s| && !IsSpace(s[k + 1])
    ensures IsCollapsed(s[k + 1..])
  {
    var w := s[k + 1..];
    forall i | 0 <= i < |w| ensures w[i] == s[k + 1 + i] {
    }
  }

  /** The words after a space are the words after it. */
  lemma WordsAfterSpace(s: string, k: nat)
    requires IsCollapsed(s) && k < |s| && IsSpace(s[k])
    ensures Words(s[k..]) == Words(s[k + 1..]) && Words(s[k + 1..]) != []
  {
    CollapsedAfterSpace(s, k);
    assert s[k..][1..] == s[k + 1..];
  }
}
