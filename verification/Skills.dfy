/** The skills chart: each skill once with its highest level over all cursus, the bars relative to the strongest. */
module Skills {
  import opened Sorting

  datatype Skill = Skill(name: string, level: real)

  datatype Cursus = Cursus(name: string, grade: string, level: real, beginAt: string, skills: seq<Skill>)

  datatype Bar = Bar(name: string, level: real, pct: int, index: int)

  function AllSkills(cursus: seq<Cursus>): seq<Skill> {
    if cursus == [] then [] else AllSkills(cursus[..|cursus| - 1]) + cursus[|cursus| - 1].skills
  }

  function LevelIn(best: map<string, real>, name: string): real {
    if name in best then best[name] else 0.0
  }

  function Larger(a: real, b: real): real {
    if a < b then b else a
  }

  /** Each skill's level over all cursus. */
  function Best(skills: seq<Skill>): map<string, real> {
    if skills == [] then map[]
    else
      var best, s := Best(skills[..|skills| - 1]), skills[|skills| - 1];
      best[s.name := Larger(LevelIn(best, s.name), s.level)]
  }

  /** It is the highest level the skill has anywhere, or zero when all are below. */
  lemma {:induction false} BestIsHighest(skills: seq<Skill>, name: string)
    ensures name in Best(skills) <==> exists i :: 0 <= i < |skills| && skills[i].name == name
    ensures LevelIn(Best(skills), name) >= 0.0
    ensures forall i | 0 <= i < |skills| && skills[i].name == name :: skills[i].level <= LevelIn(Best(skills), name)
    ensures LevelIn(Best(skills), name) == 0.0 || exists i :: 0 <= i < |skills| && skills[i] == Skill(name, LevelIn(Best(skills), name))
  {
    if skills != [] {
      var front := skills[..|skills| - 1];
      BestIsHighest(front, name);
      assert forall i | 0 <= i < |front| :: front[i] == skills[i];
      assert skills[|skills| - 1].name == name ==> name in Best(skills);
    }
  }

  predicate Stronger(a: Skill, b: Skill) {
    a.level > b.level
  }

  /** A bar's share of the strongest skill, in whole percent. */
  function Pct(level: real, top: real): int {
    if top > 0.0 then (level / top * 100.0).Floor else 100
  }

  lemma Ratio(x: real, t: real)
    requires t > 0.0
    ensures x / t * t == x
  {
  }

  lemma NotPositive(d: real, t: real)
    requires t > 0.0 && d * t <= 0.0
    ensures d <= 0.0
  {
  }

  lemma AtMostByProduct(a: real, b: real, t: real)
    requires t > 0.0 && a * t <= b * t
    ensures a <= b
  {
    NotPositive(a - b, t);
  }

  lemma PctRange(level: real, top: real)
    requires 0.0 <= level <= top
    ensures 0 <= Pct(level, top) <= 100
    ensures level == top ==> Pct(level, top) == 100
  {
    if top > 0.0 {
      Ratio(level, top);
      Ratio(top, top);
      AtMostByProduct(0.0, level / top, top);
      AtMostByProduct(level / top, top / top, top);
      AtMostByProduct(1.0, top / top, top);
      AtMostByProduct(top / top, 1.0, top);
    }
  }

  /** The share in percent, rounded down to a whole number. */
  ghost predicate IsShare(pct: int, level: real, top: real) {
    pct as real * top <= 100.0 * level < (pct as real + 1.0) * top
  }

  lemma PctIsShare(level: real, top: real)
    ensures top > 0.0 ==> IsShare(Pct(level, top), level, top)
    ensures top <= 0.0 ==> Pct(level, top) == 100
  {
    if top > 0.0 {
      Ratio(level, top);
      ScaledShare(Pct(level, top), level / top, level, top);
    }
  }

  lemma ScaledShare(pct: int, r: real, level: real, top: real)
    requires top > 0.0 && r * top == level && pct as real <= r * 100.0 < pct as real + 1.0
    ensures IsShare(pct, level, top)
  {
    var low, x := pct as real, r * 100.0;
    assert x * top == 100.0 * (r * top);
    ScaledBounds(low, x, top);
  }

  lemma ScaledBounds(low: real, x: real, t: real)
    requires t > 0.0 && low <= x < low + 1.0
    ensures low * t <= x * t < (low + 1.0) * t
  {
    Positive(low + 1.0 - x, t);
  }

  lemma Positive(d: real, t: real)
    requires d > 0.0 && t > 0.0
    ensures d * t > 0.0
  {
  }

  function Elements(xs: seq<string>): set<string> {
    set x | x in xs
  }

  function BarNames(bars: seq<Bar>): seq<string> {
    Map(bars, (b: Bar) => b.name)
  }

  function SkillNames(skills: seq<Skill>): seq<string> {
    Map(skills, (s: Skill) => s.name)
  }

  /** The bars show every skill, each once, strongest first, numbered from 1. */
  ghost predicate IsTopSkills(bars: seq<Bar>, best: map<string, real>) {
    && |bars| == |best| && Elements(BarNames(bars)) == best.Keys
    && (forall i | 0 <= i < |bars| :: bars[i].name in best && bars[i].level == best[bars[i].name])
    && (forall i, j | 0 <= i < j < |bars| :: bars[i].level >= bars[j].level)
    && (forall i | 0 <= i < |bars| :: bars[i].index == i + 1 && bars[i].pct == Pct(bars[i].level, bars[0].level))
  }

  lemma {:induction false} PrefixElements(xs: seq<string>, n: nat)
    requires n <= |xs| && |Elements(xs)| == |xs|
    ensures |Elements(xs[..n])| == n
  {
    AtMost(xs[..n]);
    AtMost(xs[n..]);
    assert xs == xs[..n] + xs[n..];
    Cover(Elements(xs), Elements(xs[..n]), Elements(xs[n..]));
  }

  lemma {:induction false} AtMost(xs: seq<string>)
    ensures |Elements(xs)| <= |xs|
  {
    if xs != [] {
      AtMost(xs[1..]);
      assert xs == [xs[0]] + xs[1..];
      assert Elements(xs) == {xs[0]} + Elements(xs[1..]);
    }
  }

  lemma Cover(s: set<string>, x: set<string>, y: set<string>)
    requires s <= x + y
    ensures |s| <= |x| + |y|
  {
    assert x + y == s + (x + y - s);
  }

  lemma ElementsSnoc(xs: seq<string>, x: string)
    ensures Elements(xs + [x]) == Elements(xs) + {x}
  {
    assert forall y :: y in xs + [x] <==> y in xs || y == x;
  }

  /** Among the first i + 1 of distinct names there is one that i other names do not include. */
  lemma Newcomer(xs: seq<string>, ys: seq<string>, i: nat) returns (k: nat)
    requires |Elements(xs)| == |xs| && i < |xs| && i <= |ys|
    ensures k <= i && forall m | 0 <= m < i :: ys[m] != xs[k]
  {
    var above, others := xs[..i + 1], ys[..i];
    PrefixElements(xs, i + 1);
    AtMost(others);
    var rest := Elements(above) - Elements(others);
    Cover(Elements(above), rest, Elements(others));
    var name :| name in rest;
    k :| 0 <= k < |above| && above[k] == name;
    assert forall m | 0 <= m < i :: ys[m] == others[m];
  }

  lemma RankedAtMost(a: seq<Bar>, b: seq<Bar>, best: map<string, real>, i: nat)
    requires IsTopSkills(a, best) && IsTopSkills(b, best) && i < |a|
    ensures a[i].level <= b[i].level
  {
    var names := BarNames(b);
    var k := Newcomer(BarNames(a), names, i);
    var name := a[k].name;
    assert name in Elements(names);
    var m :| 0 <= m < |names| && names[m] == name;
    assert b[m].name == name && i <= m;
  }

  /** Two renderings of the same skills differ at most in the order of names of equal level. */
  ghost predicate SameUpToTies(a: seq<Bar>, b: seq<Bar>) {
    && |a| == |b|
    && (forall i | 0 <= i < |a| :: a[i].level == b[i].level && a[i].pct == b[i].pct && a[i].index == b[i].index)
    && (forall i, j | 0 <= i < |a| && 0 <= j < |b| && a[i].name == b[j].name :: a[i].level == b[j].level)
    && Elements(BarNames(a)) == Elements(BarNames(b))
  }

  lemma TopSkillsUpToTies(a: seq<Bar>, b: seq<Bar>, best: map<string, real>)
    requires IsTopSkills(a, best) && IsTopSkills(b, best)
    ensures SameUpToTies(a, b)
  {
    forall i | 0 <= i < |a|
      ensures a[i].level == b[i].level
    {
      RankedAtMost(a, b, best, i);
      RankedAtMost(b, a, best, i);
    }
  }

  /** The skills are those of the cursus, and of no other place. */
  lemma {:induction false} AllSkillsHold(cursus: seq<Cursus>, s: Skill)
    ensures s in AllSkills(cursus) <==> exists i :: 0 <= i < |cursus| && s in cursus[i].skills
  {
    if cursus != [] {
      var front := cursus[..|cursus| - 1];
      AllSkillsHold(front, s);
      assert forall i | 0 <= i < |front| :: front[i] == cursus[i];
    }
  }

  /** Some bar carries the name, at this level or higher. */
  ghost predicate HasBar(bars: seq<Bar>, s: Skill) {
    exists k :: 0 <= k < |bars| && bars[k].name == s.name && s.level <= bars[k].level
  }

  /** Every skill of every cursus has a bar that is no lower. */
  lemma {:induction false} EverySkillHasBar(bars: seq<Bar>, cursus: seq<Cursus>, i: nat, s: Skill)
    requires IsTopSkills(bars, Best(AllSkills(cursus))) && i < |cursus| && s in cursus[i].skills
    ensures HasBar(bars, s)
  {
    var all := AllSkills(cursus);
    AllSkillsHold(cursus, s);
    BestIsHighest(all, s.name);
    assert s.name in Elements(BarNames(bars));
    var k :| 0 <= k < |bars| && BarNames(bars)[k] == s.name;
    assert bars[k].name == s.name;
  }

  /** A bar is at a level that some cursus gives the skill, or zero. */
  lemma {:induction false} BarsAttained(bars: seq<Bar>, cursus: seq<Cursus>, k: nat)
    requires IsTopSkills(bars, Best(AllSkills(cursus))) && k < |bars|
    ensures bars[k].level >= 0.0 && bars[k].index == k + 1
    ensures bars[k].level > 0.0 ==> exists i :: 0 <= i < |cursus| && Skill(bars[k].name, bars[k].level) in cursus[i].skills
  {
    var all := AllSkills(cursus);
    BestIsHighest(all, bars[k].name);
    AllSkillsHold(cursus, Skill(bars[k].name, bars[k].level));
  }

  /** A bar is filled to its share of the strongest level; all bars are full when no level is positive. */
  lemma {:induction false} BarShares(bars: seq<Bar>, best: map<string, real>, k: nat)
    requires IsTopSkills(bars, best) && k < |bars|
    ensures bars[0].level <= 0.0 ==> bars[k].pct == 100
    ensures bars[0].level > 0.0 ==> IsShare(bars[k].pct, bars[k].level, bars[0].level)
  {
    var level, top := bars[k].level, bars[0].level;
    assert bars[k].pct == Pct(level, top);
    PctIsShare(level, top);
  }

  lemma {:induction false} DistinctAt(names: seq<string>, i: nat, j: nat)
    requires |Elements(names)| == |names| && i < j < |names|
    ensures names[i] != names[j]
  {
    PrefixElements(names, j);
    PrefixElements(names, j + 1);
    assert names[..j + 1] == names[..j] + [names[j]];
    ElementsSnoc(names[..j], names[j]);
    assert names[..j][i] == names[i];
  }

  /** Each name has one bar. */
  lemma {:induction false} OneBarPerName(bars: seq<Bar>, best: map<string, real>, i: nat, j: nat)
    requires IsTopSkills(bars, best) && i < j < |bars|
    ensures bars[i].name != bars[j].name
  {
    DistinctAt(BarNames(bars), i, j);
    assert BarNames(bars)[i] == bars[i].name && BarNames(bars)[j] == bars[j].name;
  }

  /** The strongest skill fills its bar, and no bar is fuller than the one before it. */
  lemma BarsFill(bars: seq<Bar>, skills: seq<Skill>, i: nat)
    requires IsTopSkills(bars, Best(skills)) && i < |bars|
    ensures 0 <= bars[i].pct <= 100 && bars[0].pct == 100
    ensures i > 0 ==> bars[i].pct <= bars[i - 1].pct
  {
    BestIsHighest(skills, bars[i].name);
    PctRange(bars[i].level, bars[0].level);
    PctRange(bars[0].level, bars[0].level);
    if i > 0 {
      PctMonotone(bars[i].level, bars[i - 1].level, bars[0].level);
    }
  }

  lemma PctMonotone(a: real, b: real, top: real)
    requires a <= b
    ensures Pct(a, top) <= Pct(b, top)
  {
    if top > 0.0 {
      Ratio(a, top);
      Ratio(b, top);
      AtMostByProduct(a / top, b / top, top);
    }
  }

  method FillFrom(best: map<string, real>, skills: seq<Skill>, ghost before: seq<Skill>) returns (next: map<string, real>)
    requires best == Best(before)
    ensures next == Best(before + skills)
  {
    next := best;
    assert before + skills[..0] == before;
    for k := 0 to |skills|
      invariant next == Best(before + skills[..k])
    {
      var s := skills[k];
      assert before + skills[..k + 1] == before + skills[..k] + [s];
      next := next[s.name := Larger(LevelIn(next, s.name), s.level)];
    }
    assert skills[..|skills|] == skills;
  }

  method FillBest(cursus: seq<Cursus>) returns (best: map<string, real>)
    ensures best == Best(AllSkills(cursus))
  {
    best := map[];
    for i := 0 to |cursus|
      invariant best == Best(AllSkills(cursus[..i]))
    {
      assert cursus[..i + 1][..i] == cursus[..i];
      best := FillFrom(best, cursus[i].skills, AllSkills(cursus[..i]));
    }
    assert cursus[..|cursus|] == cursus;
  }

  /** A list of these skills of the map, each once. */
  ghost predicate ListsOf(skills: seq<Skill>, best: map<string, real>, names: set<string>) {
    && |skills| == |names| && Elements(SkillNames(skills)) == names
    && forall i | 0 <= i < |skills| :: skills[i].name in best && skills[i].level == best[skills[i].name]
  }

  ghost predicate Lists(skills: seq<Skill>, best: map<string, real>) {
    ListsOf(skills, best, best.Keys)
  }

  ghost predicate IsTop(top: real, skills: seq<Skill>) {
    && top >= 0.0
    && (forall i | 0 <= i < |skills| :: skills[i].level <= top)
    && (top == 0.0 || exists i :: 0 <= i < |skills| && skills[i].level == top)
  }

  lemma ListsSnoc(skills: seq<Skill>, best: map<string, real>, names: set<string>, name: string)
    requires ListsOf(skills, best, names) && name in best && name !in names
    ensures ListsOf(skills + [Skill(name, best[name])], best, names + {name})
  {
    assert SkillNames(skills + [Skill(name, best[name])]) == SkillNames(skills) + [name];
    ElementsSnoc(SkillNames(skills), name);
  }

  lemma TopSnoc(top: real, skills: seq<Skill>, s: Skill)
    requires IsTop(top, skills)
    ensures IsTop(Larger(top, s.level), skills + [s])
  {
    var more := skills + [s];
    assert more[|skills|] == s;
    assert forall i | 0 <= i < |skills| :: more[i] == skills[i];
  }

  /** The map is walked in any order, so names of equal level may come in any order. */
  method CollectSkills(best: map<string, real>) returns (all: seq<Skill>, top: real)
    ensures Lists(all, best) && IsTop(top, all)
  {
    all, top := [], 0.0;
    var names := best.Keys;
    ghost var done: set<string> := {};
    while names != {}
      invariant done <= best.Keys && names == best.Keys - done
      invariant ListsOf(all, best, done)
      invariant IsTop(top, all)
      decreases |names|
    {
      var name :| name in names;
      ListsSnoc(all, best, done, name);
      TopSnoc(top, all, Skill(name, best[name]));
      all := all + [Skill(name, best[name])];
      top := Larger(top, best[name]);
      names, done := names - {name}, done + {name};
    }
    assert done == best.Keys;
  }

  lemma StrongerIsStrictWeak()
    ensures StrictWeakOrder(Stronger)
  {
  }

  lemma SortedNames(all: seq<Skill>)
    ensures Elements(SkillNames(Sort(all, Stronger))) == Elements(SkillNames(all))
  {
    var sorted := Sort(all, Stronger);
    forall name
      ensures name in Elements(SkillNames(sorted)) <==> name in Elements(SkillNames(all))
    {
      if name in SkillNames(sorted) {
        var k :| 0 <= k < |sorted| && SkillNames(sorted)[k] == name;
        SortKeepsMembers(all, Stronger, sorted[k]);
        var m :| 0 <= m < |all| && all[m] == sorted[k];
        assert SkillNames(all)[m] == name;
      }
      if name in SkillNames(all) {
        var k :| 0 <= k < |all| && SkillNames(all)[k] == name;
        SortKeepsMembers(all, Stronger, all[k]);
        var m :| 0 <= m < |sorted| && sorted[m] == all[k];
        assert SkillNames(sorted)[m] == name;
      }
    }
  }

  ghost predicate Ranked(skills: seq<Skill>) {
    forall i, j | 0 <= i < j < |skills| :: skills[i].level >= skills[j].level
  }

  lemma SortedSkills(all: seq<Skill>, best: map<string, real>)
    requires Lists(all, best)
    ensures Lists(Sort(all, Stronger), best) && Ranked(Sort(all, Stronger))
  {
    var sorted := Sort(all, Stronger);
    SortedNames(all);
    StrongerIsStrictWeak();
    SortSorts(all, Stronger);
    forall i | 0 <= i < |sorted|
      ensures sorted[i].name in best && sorted[i].level == best[sorted[i].name]
    {
      SortKeepsMembers(all, Stronger, sorted[i]);
    }
  }

  /** Sorting puts the highest level first. */
  lemma TopIsFirst(all: seq<Skill>, top: real)
    requires all != [] && IsTop(top, all)
    requires forall i | 0 <= i < |all| :: all[i].level >= 0.0
    ensures Sort(all, Stronger)[0].level == top
  {
    var sorted := Sort(all, Stronger);
    StrongerIsStrictWeak();
    SortSorts(all, Stronger);
    SortKeepsMembers(all, Stronger, sorted[0]);
    if top != 0.0 {
      var i :| 0 <= i < |all| && all[i].level == top;
      SortKeepsMembers(all, Stronger, all[i]);
      var k :| 0 <= k < |sorted| && sorted[k] == all[i];
      assert sorted[0].level >= sorted[k].level;
    }
  }

  function Bars(skills: seq<Skill>, top: real): seq<Bar> {
    seq(|skills|, i requires 0 <= i < |skills| => Bar(skills[i].name, skills[i].level, Pct(skills[i].level, top), i + 1))
  }

  method Render(skills: seq<Skill>, top: real) returns (bars: seq<Bar>)
    ensures bars == Bars(skills, top)
  {
    bars := [];
    for i := 0 to |skills|
      invariant |bars| == i
      invariant forall k | 0 <= k < i :: bars[k] == Bars(skills, top)[k]
    {
      bars := bars + [Bar(skills[i].name, skills[i].level, Pct(skills[i].level, top), i + 1)];
    }
  }

  lemma RankedBars(skills: seq<Skill>, best: map<string, real>, top: real)
    requires Lists(skills, best) && Ranked(skills) && (skills != [] ==> skills[0].level == top)
    ensures IsTopSkills(Bars(skills, top), best)
  {
    assert BarNames(Bars(skills, top)) == SkillNames(skills);
  }

  lemma CollectedRank(cursus: seq<Cursus>, all: seq<Skill>, top: real)
    requires Lists(all, Best(AllSkills(cursus))) && IsTop(top, all)
    ensures IsTopSkills(Bars(Sort(all, Stronger), top), Best(AllSkills(cursus)))
  {
    var best := Best(AllSkills(cursus));
    SortedSkills(all, best);
    if all != [] {
      forall i | 0 <= i < |all|
        ensures all[i].level >= 0.0
      {
        BestIsHighest(AllSkills(cursus), all[i].name);
      }
      TopIsFirst(all, top);
    }
    RankedBars(Sort(all, Stronger), best, top);
  }

  method TopSkills(cursus: seq<Cursus>) returns (bars: seq<Bar>)
    ensures IsTopSkills(bars, Best(AllSkills(cursus)))
  {
    var best := FillBest(cursus);
    var all, top := CollectSkills(best);
    CollectedRank(cursus, all, top);
    var ranked := new Skill[|all|](i requires 0 <= i < |all| => all[i]);
    assert ranked[..] == all;
    SortInPlace(ranked, Stronger);
    bars := Render(ranked[..], top);
  }
}
