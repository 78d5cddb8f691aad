/** Substrings and the leftmost, non-overlapping replacement of Go's strings.ReplaceAll. */
module Text {

  /** The text l stands in s at position i. */
  predicate OccursAt(s: string, l: string, i: nat) {
    i + |l| <= |s| && s[i..i + |l|] == l
  }

  predicate Contains(s: string, l: string) {
    exists i: nat | i <= |s| :: OccursAt(s, l, i)
  }

  function LowerChar(c: char): char {
    if 'A' <= c <= 'Z' then (c as int + 32) as char else c
  }

  /** strings.ToLower on the ASCII letters; other characters are kept. */
  function ToLower(s: string): (r: string)
    ensures |r| == |s|
  {
    seq(|s|, i requires 0 <= i < |s| => LowerChar(s[i]))
  }

  /** c is d, or the capital of d. */
  predicate SameLetter(c: char, d: char) {
    c == d || ('A' <= c <= 'Z' && c as int + 32 == d as int)
  }

  /** The phrase stands somewhere in the text, in any casing. */
  ghost predicate Says(text: string, phrase: string) {
    exists i: nat | i + |phrase| <= |text| :: SaysAt(text, phrase, i)
  }

  predicate SaysAt(text: string, phrase: string, i: nat)
    requires i + |phrase| <= |text|
  {
    forall k | 0 <= k < |phrase| :: SameLetter(text[i + k], phrase[k])
  }

  /** Looking for a lower-case phrase in the lower-cased text is looking for it in any casing. */
  lemma LoweredSays(text: string, phrase: string)
    requires forall k | 0 <= k < |phrase| :: !('A' <= phrase[k] <= 'Z')
    ensures Contains(ToLower(text), phrase) <==> Says(text, phrase)
  {
    var lowered := ToLower(text);
    forall i: nat | i + |phrase| <= |text|
      ensures OccursAt(lowered, phrase, i) <==> SaysAt(text, phrase, i)
    {
      var part := lowered[i..i + |phrase|];
      assert forall k | 0 <= k < |phrase| :: part[k] == LowerChar(text[i + k]);
      if SaysAt(text, phrase, i) {
        assert part == phrase;
      }
    }
    if Contains(lowered, phrase) {
      var i: nat :| i <= |lowered| && OccursAt(lowered, phrase, i);
      assert SaysAt(text, phrase, i);
    }
    if Says(text, phrase) {
      var i: nat :| i + |phrase| <= |text| && SaysAt(text, phrase, i);
      assert OccursAt(lowered, phrase, i);
    }
  }

  /** What follows the last c: the file name of a path, the domain of an address; all of s when there is no c. */
  function AfterLast(s: string, c: char): (tail: string)
    ensures c !in tail && |tail| <= |s| && s[|s| - |tail|..] == tail
    ensures |tail| < |s| ==> s[|s| - |tail| - 1] == c
  {
    if s == "" || s[|s| - 1] == c then ""
    else
      var before := s[..|s| - 1];
      assert s == before + [s[|s| - 1]];
      AfterLast(before, c) + [s[|s| - 1]]
  }

  /** strings.ReplaceAll for a non-empty pattern: scan from the left, replace every match, go on after it. */
  function ReplaceAll(s: string, l: string, marker: string): string
    requires l != ""
    decreases |s|
  {
    if |s| < |l| then s
    else if s[..|l|] == l then marker + ReplaceAll(s[|l|..], l, marker)
    else [s[0]] + ReplaceAll(s[1..], l, marker)
  }

  lemma ContainsPart(a: string, s: string, b: string, l: string)
    requires Contains(s, l)
    ensures Contains(a + s + b, l)
  {
    var i: nat :| i <= |s| && OccursAt(s, l, i);
    assert (a + s + b)[|a| + i..|a| + i + |l|] == s[i..i + |l|];
    assert OccursAt(a + s + b, l, |a| + i);
  }

  lemma ContainsTail(s: string, l: string)
    requires s != ""
    ensures Contains(s[1..], l) ==> Contains(s, l)
  {
    if Contains(s[1..], l) {
      ContainsPart(s[..1], s[1..], "", l);
      assert s[..1] + s[1..] + "" == s;
    }
  }

  /** A match that reaches over position |a| uses the character there. */
  lemma StraddlingMatchUses(a: string, wall: char, b: string, l: string, i: nat)
    requires OccursAt(a + [wall] + b, l, i)
    ensures i <= |a| < i + |l| ==> wall in l
  {
    if i <= |a| < i + |l| {
      assert (a + [wall] + b)[i..i + |l|][|a| - i] == wall;
    }
  }

  /** A character that l does not use is a wall: no match reaches across it. */
  lemma ContainsAcrossWall(a: string, wall: char, b: string, l: string)
    requires wall !in l
    requires Contains(a + [wall] + b, l)
    ensures Contains(a, l) || Contains(b, l)
  {
    var s := a + [wall] + b;
    var i: nat :| i <= |s| && OccursAt(s, l, i);
    StraddlingMatchUses(a, wall, b, l, i);
    if i + |l| <= |a| {
      assert a[i..i + |l|] == s[i..i + |l|];
      assert OccursAt(a, l, i);
    } else {
      var k := i - |a| - 1;
      assert b[k..k + |l|] == s[i..i + |l|];
      assert OccursAt(b, l, k);
    }
  }

  /** Without a match at the front, the first character is kept. */
  lemma ReplaceAllKeepsHead(s: string, l: string, marker: string)
    requires l != "" && s != "" && !OccursAt(s, l, 0)
    ensures ReplaceAll(s, l, marker) == [s[0]] + ReplaceAll(s[1..], l, marker)
  {
  }

  /** Without a match nothing changes. */
  lemma {:induction false} ReplaceAllAbsent(s: string, l: string, marker: string)
    requires l != "" && !Contains(s, l)
    ensures ReplaceAll(s, l, marker) == s
    decreases |s|
  {
    if |s| >= |l| {
      assert !OccursAt(s, l, 0);
      ContainsTail(s, l);
      ReplaceAllAbsent(s[1..], l, marker);
    }
  }

  /** With a match the marker appears in the result. */
  lemma {:induction false} ReplaceAllMarks(s: string, l: string, marker: string)
    requires l != "" && Contains(s, l)
    ensures Contains(ReplaceAll(s, l, marker), marker)
    decreases |s|
  {
    var i: nat :| i <= |s| && OccursAt(s, l, i);
    if s[..|l|] == l {
      assert OccursAt(ReplaceAll(s, l, marker), marker, 0);
    } else {
      assert i > 0;
      assert s[1..][i - 1..i - 1 + |l|] == s[i..i + |l|];
      assert OccursAt(s[1..], l, i - 1);
      ReplaceAllMarks(s[1..], l, marker);
      var tail := ReplaceAll(s[1..], l, marker);
      ContainsPart([s[0]], tail, "", marker);
      assert [s[0]] + tail + "" == ReplaceAll(s, l, marker);
    }
  }

  /** Replacement works on the two sides of a wall separately. */
  lemma {:induction false} ReplaceAllAcrossWall(a: string, wall: char, b: string, l: string, marker: string)
    requires l != "" && wall !in l
    ensures ReplaceAll(a + [wall] + b, l, marker)
         == ReplaceAll(a, l, marker) + [wall] + ReplaceAll(b, l, marker)
    decreases |a|
  {
    var s := a + [wall] + b;
    if OccursAt(a, l, 0) {
      assert s[..|l|] == l;
      var rest := a[|l|..];
      assert s[|l|..] == rest + [wall] + b;
      ReplaceAllAcrossWall(rest, wall, b, l, marker);
    } else {
      MatchBeforeWall(a, wall, b, l);
      ReplaceAllKeepsHead(s, l, marker);
      if a == "" {
        assert s[1..] == b;
      } else {
        assert s[1..] == a[1..] + [wall] + b;
        ReplaceAllAcrossWall(a[1..], wall, b, l, marker);
        ReplaceAllKeepsHead(a, l, marker);
      }
    }
  }

  lemma MatchBeforeWall(a: string, wall: char, b: string, l: string)
    requires l != "" && wall !in l
    ensures OccursAt(a + [wall] + b, l, 0) ==> OccursAt(a, l, 0)
  {
    var s := a + [wall] + b;
    if OccursAt(s, l, 0) {
      StraddlingMatchUses(a, wall, b, l, 0);
      assert s[..|l|] == a[..|l|];
    }
  }
}
