/**
  `str.split` with a non-empty separator, and the identity that ties it to
  `str.replace`: cutting at every occurrence and gluing the pieces with the
  replacement is replacing.
 */
module SplitJoin {
  import opened Wrappers
  import opened Text

  /** `s.split(sep)` for a non-empty separator. */
  function SplitOn(s: string, sep: string): (parts: seq<string>)
    requires sep != []
    ensures |parts| >= 1
    decreases |s|
  {
    match Find(s, sep)
    case None => [s]
    case Some(i) => [s[..i]] + SplitOn(s[i + |sep|..], sep)
  }

  /** Where `s` does not start with `sep`, its head belongs to the first piece. */
  lemma SplitOnHead(s: string, sep: string)
    requires sep != [] && s != [] && !StartsWith(s, sep)
    ensures SplitOn(s, sep) == [[s[0]] + SplitOn(s[1..], sep)[0]] + SplitOn(s[1..], sep)[1..]
  {
    var f := Find(s[1..], sep);
    if f.Some? {
      SplitOnHeadFound(s, sep, f.value);
    } else {
      assert Find(s, sep) == None;
      assert SplitOn(s[1..], sep) == [s[1..]];
      assert [s[0]] + s[1..] == s;
    }
  }

  lemma {:induction false} SplitOnHeadFound(s: string, sep: string, i: nat)
    requires sep != [] && s != [] && !StartsWith(s, sep)
    requires Find(s[1..], sep).Some? && Find(s[1..], sep).value == i
    ensures SplitOn(s, sep) == [[s[0]] + SplitOn(s[1..], sep)[0]] + SplitOn(s[1..], sep)[1..]
  {
    var t := s[1..];
    var rest := s[i + 1 + |sep|..];
    FindShifts(s, sep, i);
    SplitOnFound(t, sep, i, rest);
    SplitOnFound(s, sep, i + 1, rest);
    assert s[..i + 1] == [s[0]] + t[..i];
  }

  lemma FindShifts(s: string, sep: string, i: nat)
    requires s != [] && !StartsWith(s, sep) && Find(s[1..], sep) == Some(i)
    ensures Find(s, sep) == Some(i + 1)
  {
  }

  lemma {:induction false} SplitOnFound(s: string, sep: string, i: nat, rest: string)
    requires sep != [] && Find(s, sep).Some? && Find(s, sep).value == i && rest == s[i + |sep|..]
    ensures SplitOn(s, sep) == [s[..i]] + SplitOn(rest, sep)
  {
    var parts := SplitOn(rest, sep);
    assert SplitOn(s, sep) == [s[..i]] + parts;
  }

  lemma JoinWithHead(c: char, parts: seq<string>, sep: string)
    requires |parts| >= 1
    ensures JoinWith([[c] + parts[0]] + parts[1..], sep) == [c] + JoinWith(parts, sep)
  {
  }

  /** The Python identity `s.replace(a, b) == b.join(s.split(a))`: replacing
      is the same as cutting at every occurrence and gluing with `repl`. */
  lemma {:induction false} ReplaceIsSplitJoin(s: string, needle: string, repl: string)
    requires needle != []
    ensures ReplaceAll(s, needle, repl) == JoinWith(SplitOn(s, needle), repl)
    decreases |s|
  {
    if StartsWith(s, needle) {
      ReplaceIsSplitJoin(s[|needle|..], needle, repl);
      assert SplitOn(s, needle) == [""] + SplitOn(s[|needle|..], needle);
    } else if s != [] {
      ReplaceIsSplitJoin(s[1..], needle, repl);
      SplitOnHead(s, needle);
      JoinWithHead(s[0], SplitOn(s[1..], needle), repl);
    }
  }

  /** The leftmost occurrence is the one `find` reports. */
  lemma FindIsFirst(s: string, needle: string, j: nat)
    requires OccursAt(s, needle, j)
    requires forall i :: 0 <= i < j ==> !OccursAt(s, needle, i)
    ensures Find(s, needle).Some? && Find(s, needle).value == j
  {
    ContainsIffOccurs(s, needle);
    var f := Find(s, needle);
    assert f.Some?;
    assert f.value <= j ==> f.value == j;
  }

  lemma JoinWithCons(part: string, parts: seq<string>, sep: string)
    requires |parts| >= 1
    ensures JoinWith([part] + parts, sep) == part + sep + JoinWith(parts, sep)
  {
    assert ([part] + parts)[1..] == parts;
  }

  /** `s.replace` keeps the text before the leftmost occurrence of the
      needle, puts `repl` in its place and goes on after it. */
  lemma ReplaceAtFirst(s: string, needle: string, repl: string, j: nat)
    requires needle != [] && OccursAt(s, needle, j)
    requires forall i :: 0 <= i < j ==> !OccursAt(s, needle, i)
    ensures ReplaceAll(s, needle, repl) == s[..j] + repl + ReplaceAll(s[j + |needle|..], needle, repl)
  {
    var rest := s[j + |needle|..];
    FindIsFirst(s, needle, j);
    SplitOnFound(s, needle, j, rest);
    ReplaceIsSplitJoin(s, needle, repl);
    ReplaceIsSplitJoin(rest, needle, repl);
    JoinWithCons(s[..j], SplitOn(rest, needle), repl);
  }

  /** With one occurrence of `needle`, preceded by none and followed by none,
      `s.replace` swaps exactly that occurrence. */
  lemma ReplaceSingle(a: string, needle: string, c: string, repl: string)
    requires needle != []
    requires forall j :: 0 <= j < |a| ==> !OccursAt(a + needle + c, needle, j)
    requires !Contains(c, needle)
    ensures ReplaceAll(a + needle + c, needle, repl) == a + repl + c
  {
    var s := a + needle + c;
    assert s[..|a|] == a && s[|a| + |needle|..] == c;
    assert OccursAt(s, needle, |a|);
    ReplaceAtFirst(s, needle, repl, |a|);
    ReplaceAbsent(c, needle, repl);
  }

  /** `ReplaceSingle` in the form a literal text can supply: the needle's
      first character is missing before the occurrence, and one of its
      characters is missing after it. */
  lemma ReplaceOneOccurrence(a: string, needle: string, c: string, repl: string, k: nat)
    requires needle != [] && needle[0] !in a
    requires k < |needle| && needle[k] !in c
    ensures ReplaceAll(a + needle + c, needle, repl) == a + repl + c
  {
    forall j | 0 <= j < |a| ensures !OccursAt(a + needle + c, needle, j) {
      HeadMismatch(a + needle + c, needle, j);
    }
    CharAbsent(c, needle, k);
    ReplaceSingle(a, needle, c, repl);
  }
}
