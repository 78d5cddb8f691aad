/**
 The pure side of login redaction: what the chain of ReplaceAll passes does to a
 text, and why no login survives it.
 */
module Redaction {
  import opened Text

  const MARKER := "[redacted]"
  const MARKER_WORD := "redacted"

  predicate NonEmpty(logins: seq<string>) {
    forall i | 0 <= i < |logins| :: logins[i] != ""
  }

  /** One ReplaceAll pass per login, in list order. */
  function Scrub(s: string, logins: seq<string>): string
    requires NonEmpty(logins)
  {
    if logins == [] then s
    else ReplaceAll(Scrub(s, logins[..|logins| - 1]), logins[|logins| - 1], MARKER)
  }

  predicate BracketFree(l: string) {
    '[' !in l && ']' !in l
  }

  /** What the code relies on about a 42 login: it cannot collide with the marker. */
  ghost predicate Redactable(l: string) {
    l != "" && BracketFree(l) && !Contains(MARKER_WORD, l)
  }

  ghost predicate AllRedactable(logins: seq<string>) {
    forall i | 0 <= i < |logins| :: Redactable(logins[i])
  }

  predicate LongestFirst(logins: seq<string>) {
    forall i, j | 0 <= i < j < |logins| :: |logins[i]| >= |logins[j]|
  }

  // ---- how a text was cut up: kept text, hit, kept text, hit, ..., kept text

  datatype Cuts = Whole(text: string) | Cut(text: string, hit: string, rest: Cuts)

  /** The text before redaction. */
  function Source(c: Cuts): string {
    match c
    case Whole(t) => t
    case Cut(t, h, r) => t + h + Source(r)
  }

  /** The text after redaction: every hit shows the marker, all other text is kept in order. */
  function Rendered(c: Cuts): string {
    match c
    case Whole(t) => t
    case Cut(t, _, r) => t + MARKER + Rendered(r)
  }

  function Hits(c: Cuts): seq<string> {
    match c
    case Whole(_) => []
    case Cut(_, h, r) => [h] + Hits(r)
  }

  /** No kept text holds l. */
  ghost predicate TextsClean(c: Cuts, l: string) {
    !Contains(c.text, l) && (c.Cut? ==> TextsClean(c.rest, l))
  }

  /** Some hit of length n or more overlaps the source positions p up to q. */
  predicate HitOver(c: Cuts, p: int, q: int, n: nat) {
    match c
    case Whole(_) => false
    case Cut(t, h, r) =>
      var next := |t| + |h|;
      (|h| >= n && |t| < q && p < next) || HitOver(r, p - next, q - next, n)
  }

  function CutText(s: string, l: string): Cuts
    requires l != ""
    decreases |s|
  {
    if |s| < |l| then Whole(s)
    else if s[..|l|] == l then Cut("", l, CutText(s[|l|..], l))
    else
      var c := CutText(s[1..], l);
      c.(text := [s[0]] + c.text)
  }

  function Join(a: Cuts, hit: string, b: Cuts): Cuts {
    match a
    case Whole(t) => Cut(t, hit, b)
    case Cut(t, h, r) => Cut(t, h, Join(r, hit, b))
  }

  /** One more pass: only kept text is cut further. */
  function CutMore(c: Cuts, l: string): Cuts
    requires l != ""
  {
    match c
    case Whole(t) => CutText(t, l)
    case Cut(t, h, r) => Join(CutText(t, l), h, CutMore(r, l))
  }

  function CutAll(s: string, logins: seq<string>): Cuts
    requires NonEmpty(logins)
  {
    if logins == [] then Whole(s)
    else CutMore(CutAll(s, logins[..|logins| - 1]), logins[|logins| - 1])
  }

  // ---- one text

  lemma {:induction false} CutTextSplits(s: string, l: string)
    requires l != ""
    ensures Source(CutText(s, l)) == s
    ensures Rendered(CutText(s, l)) == ReplaceAll(s, l, MARKER)
    decreases |s|
  {
    if |s| < |l| {
    } else if s[..|l|] == l {
      CutTextSplits(s[|l|..], l);
    } else {
      var c := CutText(s[1..], l);
      CutTextSplits(s[1..], l);
      PrependText(s[0], c);
    }
  }

  lemma PrependText(ch: char, c: Cuts)
    ensures Source(c.(text := [ch] + c.text)) == [ch] + Source(c)
    ensures Rendered(c.(text := [ch] + c.text)) == [ch] + Rendered(c)
  {
    if c.Cut? {
      assert [ch] + c.text + c.hit + Source(c.rest) == [ch] + (c.text + c.hit + Source(c.rest));
      assert [ch] + c.text + MARKER + Rendered(c.rest) == [ch] + (c.text + MARKER + Rendered(c.rest));
    }
  }

  lemma {:induction false} CutTextHits(s: string, l: string)
    requires l != ""
    ensures forall h <- Hits(CutText(s, l)) :: h == l
    decreases |s|
  {
    if |s| < |l| {
    } else if s[..|l|] == l {
      CutTextHits(s[|l|..], l);
    } else {
      CutTextHits(s[1..], l);
      var c := CutText(s[1..], l);
      assert Hits(c.(text := [s[0]] + c.text)) == Hits(c);
    }
  }

  /** The first kept text is a prefix of the source. */
  lemma FirstTextIsPrefix(c: Cuts)
    ensures |c.text| <= |Source(c)| && Source(c)[..|c.text|] == c.text
  {
  }

  /** Leftmost matching leaves no l inside any kept text. */
  lemma {:induction false} CutTextClean(s: string, l: string)
    requires l != ""
    ensures TextsClean(CutText(s, l), l)
    decreases |s|
  {
    if |s| < |l| {
    } else if s[..|l|] == l {
      CutTextClean(s[|l|..], l);
    } else {
      CutTextClean(s[1..], l);
      CutTextSplits(s[1..], l);
      var c := CutText(s[1..], l);
      FirstTextIsPrefix(c);
      HeadKeepsClean(s, c.text, l);
    }
  }

  lemma HeadKeepsClean(s: string, t: string, l: string)
    requires s != "" && !OccursAt(s, l, 0)
    requires |t| < |s| && s[1..][..|t|] == t
    requires !Contains(t, l)
    ensures !Contains([s[0]] + t, l)
  {
    var u := [s[0]] + t;
    assert u == s[..|u|];
    forall i: nat ensures !OccursAt(u, l, i) {
      if i > 0 {
        if i + |l| <= |u| {
          assert u[i..i + |l|] == t[i - 1..i - 1 + |l|];
        }
        assert !OccursAt(t, l, i - 1);
      } else {
        if |l| <= |u| {
          assert u[..|l|] == s[..|l|];
        }
      }
    }
  }

  /** Cutting a clean text for another login leaves clean texts. */
  lemma {:induction false} CutTextKeepsClean(s: string, l: string, other: string)
    requires l != "" && !Contains(s, other)
    ensures TextsClean(CutText(s, l), other)
    decreases |s|
  {
    if |s| < |l| {
    } else if s[..|l|] == l {
      EmptyTextClean(s, other);
      PartClean(s[..|l|], s[|l|..], "", other);
      assert s[..|l|] + s[|l|..] + "" == s;
      CutTextKeepsClean(s[|l|..], l, other);
    } else {
      PartClean(s[..1], s[1..], "", other);
      assert s[..1] + s[1..] + "" == s;
      CutTextKeepsClean(s[1..], l, other);
      CutTextSplits(s[1..], l);
      var c := CutText(s[1..], l);
      FirstTextIsPrefix(c);
      var u := [s[0]] + c.text;
      PartClean("", u, s[|u|..], other);
      assert "" + u + s[|u|..] == s;
    }
  }

  lemma PartClean(a: string, s: string, b: string, l: string)
    ensures !Contains(a + s + b, l) ==> !Contains(s, l)
  {
    if Contains(s, l) {
      ContainsPart(a, s, b, l);
    }
  }

  lemma EmptyTextClean(s: string, l: string)
    ensures !Contains(s, l) ==> !Contains("", l)
  {
    PartClean("", "", s, l);
    assert "" + "" + s == s;
  }

  // ---- several texts

  lemma {:induction false} JoinSource(a: Cuts, hit: string, b: Cuts)
    ensures Source(Join(a, hit, b)) == Source(a) + hit + Source(b)
  {
    match a
    case Whole(_) =>
    case Cut(t, h, r) =>
      JoinSource(r, hit, b);
      assert t + h + (Source(r) + hit + Source(b)) == (t + h + Source(r)) + hit + Source(b);
  }

  lemma {:induction false} JoinRendered(a: Cuts, hit: string, b: Cuts)
    ensures Rendered(Join(a, hit, b)) == Rendered(a) + MARKER + Rendered(b)
  {
    match a
    case Whole(_) =>
    case Cut(t, h, r) =>
      JoinRendered(r, hit, b);
      assert t + MARKER + (Rendered(r) + MARKER + Rendered(b)) == (t + MARKER + Rendered(r)) + MARKER + Rendered(b);
  }

  lemma {:induction false} JoinHits(a: Cuts, hit: string, b: Cuts)
    ensures Hits(Join(a, hit, b)) == Hits(a) + [hit] + Hits(b)
  {
    match a
    case Whole(_) =>
    case Cut(t, h, r) => JoinHits(r, hit, b);
  }

  lemma JoinSplits(a: Cuts, hit: string, b: Cuts)
    ensures Source(Join(a, hit, b)) == Source(a) + hit + Source(b)
    ensures Rendered(Join(a, hit, b)) == Rendered(a) + MARKER + Rendered(b)
    ensures Hits(Join(a, hit, b)) == Hits(a) + [hit] + Hits(b)
  {
    JoinSource(a, hit, b);
    JoinRendered(a, hit, b);
    JoinHits(a, hit, b);
  }

  lemma {:induction false} JoinClean(a: Cuts, hit: string, b: Cuts, l: string)
    requires TextsClean(a, l) && TextsClean(b, l)
    ensures TextsClean(Join(a, hit, b), l)
  {
    if a.Cut? {
      JoinClean(a.rest, hit, b, l);
    }
  }

  lemma {:induction false} CutMoreSource(c: Cuts, l: string)
    requires l != ""
    ensures Source(CutMore(c, l)) == Source(c)
  {
    CutTextSplits(c.text, l);
    if c.Cut? {
      CutMoreSource(c.rest, l);
      JoinSplits(CutText(c.text, l), c.hit, CutMore(c.rest, l));
    }
  }

  lemma {:induction false} CutMoreHits(c: Cuts, l: string, h: string)
    requires l != "" && h in Hits(CutMore(c, l))
    ensures h == l || h in Hits(c)
  {
    CutTextHits(c.text, l);
    if c.Cut? {
      JoinSplits(CutText(c.text, l), c.hit, CutMore(c.rest, l));
      if h in Hits(CutMore(c.rest, l)) {
        CutMoreHits(c.rest, l, h);
      }
    }
  }

  lemma {:induction false} CutMoreClean(c: Cuts, l: string)
    requires l != ""
    ensures TextsClean(CutMore(c, l), l)
  {
    CutTextClean(c.text, l);
    if c.Cut? {
      CutMoreClean(c.rest, l);
      JoinClean(CutText(c.text, l), c.hit, CutMore(c.rest, l), l);
    }
  }

  lemma {:induction false} CutMoreKeepsClean(c: Cuts, l: string, other: string)
    requires l != "" && TextsClean(c, other)
    ensures TextsClean(CutMore(c, l), other)
  {
    CutTextKeepsClean(c.text, l, other);
    if c.Cut? {
      CutMoreKeepsClean(c.rest, l, other);
      JoinClean(CutText(c.text, l), c.hit, CutMore(c.rest, l), other);
    }
  }

  lemma MarkerHasWalls(a: string, b: string)
    ensures a + MARKER + b == a + ['['] + (MARKER_WORD + [']'] + b)
  {
    assert MARKER == ['['] + MARKER_WORD + [']'];
    assert ['['] + MARKER_WORD + [']'] + b == ['['] + (MARKER_WORD + [']'] + b);
    assert a + (MARKER + b) == a + MARKER + b;
    assert a + (['['] + (MARKER_WORD + [']'] + b)) == a + ['['] + (MARKER_WORD + [']'] + b);
  }

  /** Earlier markers are out of reach of later logins. */
  lemma ReplaceAllAroundMarker(a: string, b: string, l: string)
    requires Redactable(l)
    ensures ReplaceAll(a + MARKER + b, l, MARKER) == ReplaceAll(a, l, MARKER) + MARKER + ReplaceAll(b, l, MARKER)
  {
    MarkerHasWalls(a, b);
    ReplaceAllAcrossWall(a, '[', MARKER_WORD + [']'] + b, l, MARKER);
    ReplaceAllAcrossWall(MARKER_WORD, ']', b, l, MARKER);
    ReplaceAllAbsent(MARKER_WORD, l, MARKER);
    MarkerHasWalls(ReplaceAll(a, l, MARKER), ReplaceAll(b, l, MARKER));
  }

  lemma ContainsAroundMarker(a: string, b: string, l: string)
    requires Redactable(l)
    requires Contains(a + MARKER + b, l)
    ensures Contains(a, l) || Contains(b, l)
  {
    MarkerHasWalls(a, b);
    ContainsAcrossWall(a, '[', MARKER_WORD + [']'] + b, l);
    if !Contains(a, l) {
      ContainsAcrossWall(MARKER_WORD, ']', b, l);
    }
  }

  lemma {:induction false} CutMoreRenders(c: Cuts, l: string)
    requires Redactable(l)
    ensures Rendered(CutMore(c, l)) == ReplaceAll(Rendered(c), l, MARKER)
  {
    CutTextSplits(c.text, l);
    if c.Cut? {
      CutMoreRenders(c.rest, l);
      JoinSplits(CutText(c.text, l), c.hit, CutMore(c.rest, l));
      ReplaceAllAroundMarker(c.text, Rendered(c.rest), l);
    }
  }

  lemma {:induction false} CleanTextsRenderClean(c: Cuts, l: string)
    requires Redactable(l) && TextsClean(c, l)
    ensures !Contains(Rendered(c), l)
  {
    if c.Cut? {
      CleanTextsRenderClean(c.rest, l);
      if Contains(Rendered(c), l) {
        ContainsAroundMarker(c.text, Rendered(c.rest), l);
      }
    }
  }

  // ---- the whole chain of passes

  /**
   The output splits as the input with disjoint login segments replaced by the
   marker and all other text kept in order, and no kept text holds a login.
   */
  lemma {:induction false} ScrubSplits(s: string, logins: seq<string>)
    requires AllRedactable(logins)
    ensures Source(CutAll(s, logins)) == s
    ensures Rendered(CutAll(s, logins)) == Scrub(s, logins)
    ensures forall h <- Hits(CutAll(s, logins)) :: h in logins
    ensures forall l <- logins :: TextsClean(CutAll(s, logins), l)
  {
    if logins != [] {
      var before, last := logins[..|logins| - 1], logins[|logins| - 1];
      assert logins == before + [last];
      var c := CutAll(s, before);
      ScrubSplits(s, before);
      CutMoreSource(c, last);
      CutMoreRenders(c, last);
      CutMoreClean(c, last);
      forall h | h in Hits(CutMore(c, last)) ensures h in logins {
        CutMoreHits(c, last, h);
      }
      forall l | l in before ensures TextsClean(CutMore(c, last), l) {
        CutMoreKeepsClean(c, last, l);
      }
    }
  }

  /** No login occurs anywhere in the final text, even after the later passes. */
  lemma ScrubRemovesEveryLogin(s: string, logins: seq<string>, l: string)
    requires AllRedactable(logins)
    requires l in logins
    ensures !Contains(Scrub(s, logins), l)
  {
    ScrubSplits(s, logins);
    CleanTextsRenderClean(CutAll(s, logins), l);
  }

  lemma {:induction false} ScrubLeavesCleanText(s: string, logins: seq<string>)
    requires forall i | 0 <= i < |logins| :: logins[i] != "" && !Contains(s, logins[i])
    ensures Scrub(s, logins) == s
  {
    if logins != [] {
      ScrubLeavesCleanText(s, logins[..|logins| - 1]);
      ReplaceAllAbsent(s, logins[|logins| - 1], MARKER);
    }
  }

  lemma ScrubIsIdempotent(s: string, logins: seq<string>)
    requires AllRedactable(logins)
    ensures Scrub(Scrub(s, logins), logins) == Scrub(s, logins)
  {
    forall l | l in logins ensures !Contains(Scrub(s, logins), l) {
      ScrubRemovesEveryLogin(s, logins, l);
    }
    ScrubLeavesCleanText(Scrub(s, logins), logins);
  }

  // ---- longest first

  lemma {:induction false} HitOverShifted(a: Cuts, hit: string, b: Cuts, p: int, q: int, n: nat)
    ensures HitOver(a, p, q, n) ==> HitOver(Join(a, hit, b), p, q, n)
    ensures var next := |Source(a)| + |hit|;
      HitOver(b, p - next, q - next, n) || (|hit| >= n && |Source(a)| < q && p < next) ==> HitOver(Join(a, hit, b), p, q, n)
  {
    if a.Cut? {
      var next := |a.text| + |a.hit|;
      HitOverShifted(a.rest, hit, b, p - next, q - next, n);
    }
  }

  lemma {:induction false} CutMoreKeepsHits(c: Cuts, l: string, p: int, q: int, n: nat)
    requires l != "" && HitOver(c, p, q, n)
    ensures HitOver(CutMore(c, l), p, q, n)
  {
    var next := |c.text| + |c.hit|;
    CutTextSplits(c.text, l);
    if HitOver(c.rest, p - next, q - next, n) {
      CutMoreKeepsHits(c.rest, l, p - next, q - next, n);
    }
    HitOverShifted(CutText(c.text, l), c.hit, CutMore(c.rest, l), p, q, n);
  }

  /** Where no kept text holds l, every place of l in the source runs into a hit. */
  lemma {:induction false} CleanTextsMeanHits(c: Cuts, l: string, p: int)
    requires l != "" && TextsClean(c, l)
    requires forall h <- Hits(c) :: |h| >= |l|
    requires -|l| < p && p + |l| <= |Source(c)|
    requires forall k | 0 <= k < |l| && p + k >= 0 :: Source(c)[p + k] == l[k]
    ensures p >= 0 ==> HitOver(c, p, p + |l|, |l|)
  {
    if p >= 0 {
      if p + |l| <= |c.text| {
        FirstTextIsPrefix(c);
        assert c.text[p..p + |l|] == l by {
          forall k | 0 <= k < |l| ensures c.text[p..p + |l|][k] == l[k] {
            assert c.text[p + k] == Source(c)[p + k];
          }
        }
        assert OccursAt(c.text, l, p);
        assert false;
      } else {
        var next := |c.text| + |c.hit|;
        assert Hits(c)[0] == c.hit;
        if p >= next {
          forall k | 0 <= k < |l| ensures Source(c.rest)[p - next + k] == l[k] {
            assert Source(c)[p + k] == Source(c.rest)[p - next + k];
          }
          assert forall h <- Hits(c.rest) :: h in Hits(c);
          CleanTextsMeanHits(c.rest, l, p - next);
        }
      }
    }
  }

  /**
   The point of running the longest login first: wherever a login stood in the
   input, it was overwritten by a hit at least as long, so a login that is part
   of a longer one never leaves the rest of the longer one behind untouched.
   */
  lemma {:induction false} LongestFirstCovers(s: string, logins: seq<string>, l: string, p: nat)
    requires AllRedactable(logins)
    requires LongestFirst(logins) && l in logins && OccursAt(s, l, p)
    ensures HitOver(CutAll(s, logins), p, p + |l|, |l|)
  {
    var before, last := logins[..|logins| - 1], logins[|logins| - 1];
    assert logins == before + [last];
    if l in before {
      LongestFirstCovers(s, before, l, p);
      CutMoreKeepsHits(CutAll(s, before), last, p, p + |l|, |l|);
    } else {
      var c := CutAll(s, logins);
      ScrubSplits(s, logins);
      forall h | h in Hits(c) ensures |h| >= |l| {
        assert h in logins;
      }
      forall k | 0 <= k < |l| ensures Source(c)[p + k] == l[k] {
        assert s[p + k] == s[p..p + |l|][k];
      }
      CleanTextsMeanHits(c, l, p);
    }
  }

  // ---- the two facts about logins are needed

  lemma {:induction false} ScrubKeepsMarkerPart(s: string, logins: seq<string>, u: string)
    requires NonEmpty(logins)
    requires Contains(s, u) && Contains(MARKER_WORD, u)
    ensures Contains(Scrub(s, logins), u)
  {
    if logins != [] {
      var before, last := logins[..|logins| - 1], logins[|logins| - 1];
      ScrubKeepsMarkerPart(s, before, u);
      var t := Scrub(s, before);
      if Contains(t, last) {
        ReplaceAllMarks(t, last, MARKER);
        ContainsMarkerPart(ReplaceAll(t, last, MARKER), u);
      } else {
        ReplaceAllAbsent(t, last, MARKER);
      }
    }
  }

  lemma ContainsMarkerPart(s: string, u: string)
    requires Contains(s, MARKER) && Contains(MARKER_WORD, u)
    ensures Contains(s, u)
  {
    var i: nat :| i <= |s| && OccursAt(s, MARKER, i);
    var a, b := s[..i], s[i + |MARKER|..];
    assert s == a + MARKER + b;
    ContainsPart(['['], MARKER_WORD, [']'], u);
    assert MARKER == ['['] + MARKER_WORD + [']'];
    ContainsPart(a, MARKER, b, u);
  }

  ghost predicate FreeOf(text: string, logins: seq<string>) {
    forall i | 0 <= i < |logins| :: !Contains(text, logins[i])
  }

  /** For logins without brackets, redaction is complete on every text exactly when no login is part of "redacted". */
  lemma CompleteIffNoLoginInMarker(logins: seq<string>)
    requires NonEmpty(logins) && forall i | 0 <= i < |logins| :: BracketFree(logins[i])
    ensures (forall s: string :: FreeOf(Scrub(s, logins), logins)) <==> FreeOf(MARKER_WORD, logins)
  {
    if FreeOf(MARKER_WORD, logins) {
      forall s: string ensures FreeOf(Scrub(s, logins), logins) {
        forall i | 0 <= i < |logins| ensures !Contains(Scrub(s, logins), logins[i]) {
          ScrubRemovesEveryLogin(s, logins, logins[i]);
        }
      }
    } else {
      var i :| 0 <= i < |logins| && Contains(MARKER_WORD, logins[i]);
      var u := logins[i];
      assert OccursAt(u, u, 0);
      ScrubKeepsMarkerPart(u, logins, u);
      assert !FreeOf(Scrub(u, logins), logins);
    }
  }

  /** A bracket in a login can fuse with a marker: redacting "x[" from "xx[" leaves "x[" behind. */
  lemma BracketLoginSurvives()
    ensures Contains(Scrub("xx[", ["x["]), "x[")
  {
    var s := "xx[";
    var logins := ["x["];
    assert logins[..0] == [];
    assert Scrub(s, []) == s;
    assert s[1..][2..] == "";
    assert ReplaceAll(s[1..], "x[", MARKER) == MARKER + "";
    assert ReplaceAll(s, "x[", MARKER) == "x" + MARKER;
    assert OccursAt("x" + MARKER, "x[", 0);
  }
}
