/**
 Curation of a raw 42 snapshot: the login scrubber as the program builds it, the
 evaluation mapper, and the presence-driven map from raw to curated documents.
 */
module Curation {
  import opened Wrappers
  import opened Text
  import opened Redaction

  // ---- the scrubber

  predicate Distinct<T(==)>(xs: seq<T>) {
    forall i, j | 0 <= i < j < |xs| :: xs[i] != xs[j]
  }

  /** An order in which the passes may run: each login once, longest first; ties in any order. */
  ghost predicate PassOrder(order: seq<string>, logins: seq<string>) {
    && LongestFirst(order)
    && Distinct(order)
    && (forall l :: l in order <==> l in logins)
  }

  method Unique(logins: seq<string>) returns (uniq: seq<string>)
    ensures Distinct(uniq)
    ensures forall l :: l in uniq <==> l in logins
  {
    var seen: set<string> := {};
    uniq := [];
    for i := 0 to |logins|
      invariant Distinct(uniq)
      invariant forall l :: l in seen <==> l in logins[..i]
      invariant forall l :: l in uniq <==> l in seen
    {
      if logins[i] !in seen {
        seen := seen + {logins[i]};
        uniq := uniq + [logins[i]];
      }
    }
    assert logins[..|logins|] == logins;
  }

  function InsertAt(sorted: seq<string>, at: nat, l: string): (next: seq<string>)
    requires at <= |sorted|
    ensures |next| == |sorted| + 1 && next[at] == l
    ensures forall k | 0 <= k < at :: next[k] == sorted[k]
    ensures forall k | at < k < |next| :: next[k] == sorted[k - 1]
  {
    sorted[..at] + [l] + sorted[at..]
  }

  lemma InsertKeepsOrder(sorted: seq<string>, at: nat, l: string)
    requires LongestFirst(sorted) && at <= |sorted|
    requires forall k | 0 <= k < at :: |sorted[k]| >= |l|
    requires at < |sorted| ==> |sorted[at]| < |l|
    ensures LongestFirst(InsertAt(sorted, at, l))
  {
  }

  lemma InsertKeepsDistinct(sorted: seq<string>, at: nat, l: string)
    requires Distinct(sorted) && l !in sorted && at <= |sorted|
    ensures Distinct(InsertAt(sorted, at, l))
  {
  }

  lemma InsertedMembers(sorted: seq<string>, at: nat, l: string)
    requires at <= |sorted|
    ensures forall x :: x in InsertAt(sorted, at, l) <==> x in sorted || x == l
  {
    assert sorted == sorted[..at] + sorted[at..];
  }

  method SortLongestFirst(logins: seq<string>) returns (sorted: seq<string>)
    requires Distinct(logins)
    ensures PassOrder(sorted, logins)
  {
    sorted := [];
    for i := 0 to |logins|
      invariant LongestFirst(sorted) && Distinct(sorted)
      invariant forall l :: l in sorted <==> l in logins[..i]
    {
      var at := 0;
      while at < |sorted| && |sorted[at]| >= |logins[i]|
        invariant 0 <= at <= |sorted|
        invariant forall k | 0 <= k < at :: |sorted[k]| >= |logins[i]|
      {
        at := at + 1;
      }
      assert logins[i] !in sorted;
      InsertKeepsOrder(sorted, at, logins[i]);
      InsertKeepsDistinct(sorted, at, logins[i]);
      InsertedMembers(sorted, at, logins[i]);
      sorted := InsertAt(sorted, at, logins[i]);
    }
    assert logins[..|logins|] == logins;
  }

  method LoginScrubber(logins: seq<string>) returns (order: seq<string>)
    ensures PassOrder(order, logins)
  {
    var uniq := Unique(logins);
    order := SortLongestFirst(uniq);
  }

  method RunScrubber(order: seq<string>, text: string) returns (s: string)
    requires NonEmpty(order)
    ensures s == Scrub(text, order)
  {
    s := text;
    for i := 0 to |order|
      invariant s == Scrub(text, order[..i])
    {
      assert order[..i + 1][..i] == order[..i];
      s := ReplaceAll(s, order[i], MARKER);
    }
    assert order[..|order|] == order;
  }

  // ---- evaluations

  datatype Feedback = Feedback(login: string, rating: int, comment: string)

  datatype ScaleTeam = ScaleTeam(
    corrector: string, truantId: int, truant: string, correcteds: seq<string>,
    feedbacks: seq<Feedback>, teamName: string, teamUsers: seq<string>, projectId: int,
    gitlabPath: Option<string>, finalMark: Option<int>, flagName: string, flagPositive: bool,
    beginAt: string, comment: Option<string>)

  datatype EvalFeedback = EvalFeedback(author: string, rating: int, comment: string)

  datatype Eval = Eval(
    project: string, projectPath: string, team: string, finalMark: Option<int>, flagName: string,
    flagPositive: bool, beginAt: string, comment: string, feedbacks: seq<EvalFeedback>, truant: bool)

  function FeedbackLogins(fbs: seq<Feedback>): seq<string> {
    seq(|fbs|, i requires 0 <= i < |fbs| => fbs[i].login)
  }

  function Participants(st: ScaleTeam): seq<string> {
    [st.corrector, st.truant] + st.correcteds + FeedbackLogins(st.feedbacks) + st.teamUsers
  }

  /** A login to remove: a participant's, not blank, and not the account owner's. */
  predicate OtherLogin(st: ScaleTeam, owner: string, l: string) {
    l in Participants(st) && l != "" && l != owner
  }

  /** The owner's login when it is the author's, nothing otherwise. */
  function KeptAuthor(login: string, owner: string): string {
    if owner != "" && login == owner then owner else ""
  }

  predicate GenericTeamName(name: string) {
    Contains(ToLower(name), "'s group") || Contains(ToLower(name), "'s team")
  }

  function ProjectTitle(st: ScaleTeam, projectNames: map<int, string>): string {
    var named := if st.projectId in projectNames then projectNames[st.projectId] else "";
    if named != "" then named else AfterLast(st.gitlabPath.GetOr(""), '/')
  }

  method CollectOthers(st: ScaleTeam, owner: string) returns (others: seq<string>)
    ensures forall l :: l in others <==> OtherLogin(st, owner, l)
  {
    others := [];
    var all := Participants(st);
    for i := 0 to |all|
      invariant forall l :: l in others <==> l in all[..i] && l != "" && l != owner
    {
      if all[i] != "" && all[i] != owner {
        others := others + [all[i]];
      }
    }
    assert all[..|all|] == all;
  }

  function CuratedFeedback(fb: Feedback, owner: string, order: seq<string>): EvalFeedback
    requires NonEmpty(order)
  {
    EvalFeedback(KeptAuthor(fb.login, owner), fb.rating, Scrub(fb.comment, order))
  }

  /** What curation does to one evaluation, for a given pass order. */
  ghost predicate CuratedFrom(e: Eval, st: ScaleTeam, owner: string, projectNames: map<int, string>, order: seq<string>)
    requires NonEmpty(order)
  {
    var team := Scrub(st.teamName, order);
    && e.project == ProjectTitle(st, projectNames)
    && e.projectPath == st.gitlabPath.GetOr("")
    && e.team == (if GenericTeamName(team) then "" else team)
    && e.finalMark == st.finalMark && e.flagName == st.flagName && e.flagPositive == st.flagPositive
    && e.beginAt == st.beginAt
    && e.comment == Scrub(st.comment.GetOr(""), order)
    && e.truant == (st.truantId != 0)
    && |e.feedbacks| == |st.feedbacks|
    && forall i | 0 <= i < |st.feedbacks| :: e.feedbacks[i] == CuratedFeedback(st.feedbacks[i], owner, order)
  }

  /** Some admissible order of the passes explains e. */
  ghost predicate Curates(e: Eval, st: ScaleTeam, owner: string, projectNames: map<int, string>) {
    exists order :: NonEmpty(order) && IsOrderFor(order, st, owner) && CuratedFrom(e, st, owner, projectNames, order)
  }

  ghost predicate IsOrderFor(order: seq<string>, st: ScaleTeam, owner: string) {
    && LongestFirst(order) && Distinct(order)
    && forall l :: l in order <==> OtherLogin(st, owner, l)
  }

  method EvalFrom(st: ScaleTeam, owner: string, projectNames: map<int, string>) returns (e: Eval)
    ensures Curates(e, st, owner, projectNames)
  {
    var others := CollectOthers(st, owner);
    var order := LoginScrubber(others);
    assert NonEmpty(order) by {
      forall i | 0 <= i < |order| ensures order[i] != "" {
        assert order[i] in order;
      }
    }
    var team := RunScrubber(order, st.teamName);
    if GenericTeamName(team) {
      team := "";
    }
    var comment := RunScrubber(order, st.comment.GetOr(""));
    var feedbacks: seq<EvalFeedback> := [];
    for i := 0 to |st.feedbacks|
      invariant |feedbacks| == i
      invariant forall k | 0 <= k < i :: feedbacks[k] == CuratedFeedback(st.feedbacks[k], owner, order)
    {
      var author := "";
      if owner != "" && st.feedbacks[i].login == owner {
        author := owner;
      }
      var text := RunScrubber(order, st.feedbacks[i].comment);
      feedbacks := feedbacks + [EvalFeedback(author, st.feedbacks[i].rating, text)];
    }
    e := Eval(ProjectTitle(st, projectNames), st.gitlabPath.GetOr(""), team, st.finalMark, st.flagName,
      st.flagPositive, st.beginAt, comment, feedbacks, st.truantId != 0);
    assert CuratedFrom(e, st, owner, projectNames, order);
    assert IsOrderFor(order, st, owner);
  }

  // ---- what a curated evaluation says, in terms of the raw one

  /** l is the login of somebody who takes part. */
  ghost predicate TakesPart(st: ScaleTeam, l: string) {
    || l == st.corrector || l == st.truant || l in st.correcteds || l in st.teamUsers
    || exists i | 0 <= i < |st.feedbacks| :: st.feedbacks[i].login == l
  }

  /** Somebody else than the owner. */
  ghost predicate Third(st: ScaleTeam, owner: string, l: string) {
    TakesPart(st, l) && l != "" && l != owner
  }

  lemma ThirdsAreScrubbed(st: ScaleTeam, owner: string, l: string)
    ensures OtherLogin(st, owner, l) <==> Third(st, owner, l)
  {
    var logins := FeedbackLogins(st.feedbacks);
    if l in logins {
      var i :| 0 <= i < |logins| && logins[i] == l;
      assert st.feedbacks[i].login == l;
    }
    if exists i | 0 <= i < |st.feedbacks| :: st.feedbacks[i].login == l {
      var i :| 0 <= i < |st.feedbacks| && st.feedbacks[i].login == l;
      assert logins[i] == l;
    }
  }

  lemma OrderOfThirds(e: Eval, st: ScaleTeam, owner: string, projectNames: map<int, string>) returns (order: seq<string>)
    requires Curates(e, st, owner, projectNames)
    ensures NonEmpty(order) && CuratedFrom(e, st, owner, projectNames, order)
    ensures forall l :: l in order <==> Third(st, owner, l)
  {
    order :| NonEmpty(order) && IsOrderFor(order, st, owner) && CuratedFrom(e, st, owner, projectNames, order);
    forall l
      ensures l in order <==> Third(st, owner, l)
    {
      ThirdsAreScrubbed(st, owner, l);
    }
  }

  /**
   No field kept of an evaluation names anybody but the owner, as long as the logins of
   the others have no brackets and are no part of "redacted".
   */
  lemma CuratedEvalNamesNoOther(e: Eval, st: ScaleTeam, owner: string, projectNames: map<int, string>, l: string)
    requires Curates(e, st, owner, projectNames) && Third(st, owner, l)
    requires forall x | Third(st, owner, x) :: '[' !in x && ']' !in x && !Contains("redacted", x)
    ensures !Contains(e.team, l) && !Contains(e.comment, l)
    ensures forall i | 0 <= i < |e.feedbacks| :: !Contains(e.feedbacks[i].comment, l) && e.feedbacks[i].author != l
  {
    var order := OrderOfThirds(e, st, owner, projectNames);
    forall i | 0 <= i < |order|
      ensures Redactable(order[i])
    {
      assert order[i] in order;
    }
    ScrubRemovesEveryLogin(st.teamName, order, l);
    ScrubRemovesEveryLogin(st.comment.GetOr(""), order, l);
    assert !Contains("", l);
    forall i | 0 <= i < |e.feedbacks|
      ensures !Contains(e.feedbacks[i].comment, l) && e.feedbacks[i].author != l
    {
      ScrubRemovesEveryLogin(st.feedbacks[i].comment, order, l);
    }
  }

  /** The text with some of the others' logins cut out and the marker put in their place, all else kept in order. */
  ghost predicate RedactedIn(text: string, out: string, st: ScaleTeam, owner: string) {
    exists c: Cuts :: Source(c) == text && Rendered(c) == out && forall i | 0 <= i < |Hits(c)| :: Third(st, owner, Hits(c)[i])
  }

  lemma ScrubRedactsIn(text: string, st: ScaleTeam, owner: string, order: seq<string>)
    requires AllRedactable(order) && forall l :: l in order <==> Third(st, owner, l)
    ensures RedactedIn(text, Scrub(text, order), st, owner)
  {
    ScrubSplits(text, order);
    var c := CutAll(text, order);
    forall i | 0 <= i < |Hits(c)|
      ensures Third(st, owner, Hits(c)[i])
    {
      assert Hits(c)[i] in Hits(c);
    }
  }

  /** The kept texts are the raw ones with others' logins replaced where they stand, and nothing else. */
  lemma CuratedEvalRedactsInPlace(e: Eval, st: ScaleTeam, owner: string, projectNames: map<int, string>)
    requires Curates(e, st, owner, projectNames)
    requires forall x | Third(st, owner, x) :: '[' !in x && ']' !in x && !Contains("redacted", x)
    ensures RedactedIn(st.comment.GetOr(""), e.comment, st, owner)
    ensures e.team == "" || RedactedIn(st.teamName, e.team, st, owner)
    ensures |e.feedbacks| == |st.feedbacks|
    ensures forall i | 0 <= i < |st.feedbacks| :: RedactedIn(st.feedbacks[i].comment, e.feedbacks[i].comment, st, owner)
  {
    var order := OrderOfThirds(e, st, owner, projectNames);
    forall i | 0 <= i < |order|
      ensures Redactable(order[i])
    {
      assert order[i] in order;
    }
    ScrubRedactsIn(st.comment.GetOr(""), st, owner, order);
    ScrubRedactsIn(st.teamName, st, owner, order);
    forall i | 0 <= i < |st.feedbacks|
      ensures RedactedIn(st.feedbacks[i].comment, e.feedbacks[i].comment, st, owner)
    {
      ScrubRedactsIn(st.feedbacks[i].comment, st, owner, order);
    }
  }

  /** The text names nobody but the owner. */
  ghost predicate NamesNoThird(text: string, st: ScaleTeam, owner: string) {
    forall l | Third(st, owner, l) :: !Contains(text, l)
  }

  lemma KeptText(text: string, st: ScaleTeam, owner: string, order: seq<string>)
    requires NonEmpty(order) && (forall l :: l in order <==> Third(st, owner, l)) && NamesNoThird(text, st, owner)
    ensures Scrub(text, order) == text
  {
    forall i | 0 <= i < |order|
      ensures !Contains(text, order[i])
    {
      assert order[i] in order;
    }
    ScrubLeavesCleanText(text, order);
  }

  /** Texts that name nobody else are kept as they are, but for a team name that is generic. */
  lemma CleanTextsAreKept(e: Eval, st: ScaleTeam, owner: string, projectNames: map<int, string>)
    requires Curates(e, st, owner, projectNames)
    ensures NamesNoThird(st.comment.GetOr(""), st, owner) ==> e.comment == st.comment.GetOr("")
    ensures NamesNoThird(st.teamName, st, owner) ==>
      e.team == if Says(st.teamName, "'s group") || Says(st.teamName, "'s team") then "" else st.teamName
    ensures |e.feedbacks| == |st.feedbacks|
    ensures forall i | 0 <= i < |st.feedbacks| && NamesNoThird(st.feedbacks[i].comment, st, owner) ::
      e.feedbacks[i].comment == st.feedbacks[i].comment
  {
    var order := OrderOfThirds(e, st, owner, projectNames);
    if NamesNoThird(st.comment.GetOr(""), st, owner) {
      KeptText(st.comment.GetOr(""), st, owner, order);
    }
    if NamesNoThird(st.teamName, st, owner) {
      KeptText(st.teamName, st, owner, order);
      GenericSays(st.teamName);
    }
    forall i | 0 <= i < |st.feedbacks| && NamesNoThird(st.feedbacks[i].comment, st, owner)
      ensures e.feedbacks[i].comment == st.feedbacks[i].comment
    {
      KeptText(st.feedbacks[i].comment, st, owner, order);
    }
  }

  lemma GenericSays(name: string)
    ensures GenericTeamName(name) <==> Says(name, "'s group") || Says(name, "'s team")
  {
    LoweredSays(name, "'s group");
    LoweredSays(name, "'s team");
  }

  /** Facts are copied, authorship survives for the owner only, and no generic team name is kept. */
  lemma CuratedEvalKeepsFacts(e: Eval, st: ScaleTeam, owner: string, projectNames: map<int, string>)
    requires Curates(e, st, owner, projectNames)
    ensures e.finalMark == st.finalMark && e.flagName == st.flagName && e.flagPositive == st.flagPositive && e.beginAt == st.beginAt
    ensures e.truant <==> st.truantId != 0
    ensures e.projectPath == match st.gitlabPath case Some(path) => path case None => ""
    ensures st.projectId in projectNames && projectNames[st.projectId] != "" ==> e.project == projectNames[st.projectId]
    ensures st.projectId !in projectNames || projectNames[st.projectId] == "" ==> e.project == AfterLast(e.projectPath, '/')
    ensures |e.feedbacks| == |st.feedbacks|
    ensures forall i | 0 <= i < |st.feedbacks| :: e.feedbacks[i].rating == st.feedbacks[i].rating
    ensures forall i | 0 <= i < |st.feedbacks| :: e.feedbacks[i].author == if st.feedbacks[i].login == owner then owner else ""
    ensures !Says(e.team, "'s group") && !Says(e.team, "'s team")
  {
    var order := OrderOfThirds(e, st, owner, projectNames);
    GenericSays(e.team);
  }

  // ---- documents

  /** A raw resource as decoded; Malformed stands for JSON of any other shape. */
  datatype Raw =
    | Malformed
    | RawMe(login: string, campus: string, zone: string, titles: seq<(int, string)>, titlesUsers: seq<int>)
    | RawProjects(projects: seq<(int, string)>)
    | RawTeams(teams: seq<ScaleTeam>)
    | RawItems(items: seq<string>)

  datatype Doc =
    | Profile(login: string, campus: string, zone: string)
    | Titles(titles: seq<string>)
    | Projects(names: seq<string>)
    | Evals(evals: seq<Eval>)
    | Items(items: seq<string>)

  const ITEM_KEYS := {"coalitions", "locations", "events_users", "quests_users", "correction_point_historics"}
  const EVAL_KEYS := {"scale_teams_as_corrector", "scale_teams_as_corrected"}
  const CURATED_KEYS := {"me", "titles_users", "projects_users"} + ITEM_KEYS + EVAL_KEYS

  predicate WellFormed(raw: map<string, Raw>, key: string) {
    key in raw &&
    match raw[key]
    case Malformed => false
    case RawMe(_, _, _, _, _) => key == "me"
    case RawProjects(_) => key == "projects_users"
    case RawTeams(_) => key in EVAL_KEYS
    case RawItems(_) => key in ITEM_KEYS
  }

  /** The keys curation emits: the profile yields two, every other one needs its own well-formed resource. */
  predicate Emits(raw: map<string, Raw>, key: string) {
    if key == "titles_users" then WellFormed(raw, "me") else WellFormed(raw, key)
  }

  function OwnerLogin(raw: map<string, Raw>): string {
    if WellFormed(raw, "me") then raw["me"].login else ""
  }

  function NamesUpTo(projects: seq<(int, string)>): map<int, string> {
    if projects == [] then map[]
    else
      var p := projects[|projects| - 1];
      NamesUpTo(projects[..|projects| - 1])[p.0 := p.1]
  }

  function ProjectNames(raw: map<string, Raw>): map<int, string> {
    if WellFormed(raw, "projects_users") then NamesUpTo(raw["projects_users"].projects) else map[]
  }

  function TitleNames(me: Raw): seq<string>
    requires me.RawMe?
  {
    var names := NamesUpTo(me.titles);
    seq(|me.titlesUsers|, i requires 0 <= i < |me.titlesUsers| =>
      if me.titlesUsers[i] in names then names[me.titlesUsers[i]] else "")
  }

  /** What document d curated from raw under key must be. */
  ghost predicate CuratedDoc(raw: map<string, Raw>, key: string, d: Doc)
    requires Emits(raw, key)
  {
    if key == "me" then d == Profile(raw["me"].login, raw["me"].campus, raw["me"].zone)
    else if key == "titles_users" then d == Titles(TitleNames(raw["me"]))
    else if key == "projects_users" then d == Projects(seq(|raw[key].projects|, i requires 0 <= i < |raw[key].projects| => raw[key].projects[i].1))
    else if key in EVAL_KEYS then
      d.Evals? && |d.evals| == |raw[key].teams| &&
      forall i | 0 <= i < |d.evals| :: Curates(d.evals[i], raw[key].teams[i], OwnerLogin(raw), ProjectNames(raw))
    else d == Items(raw[key].items)
  }

  /** The contract of curation: exactly the emitted keys, each with its curated document. */
  ghost predicate CurationOf(out: map<string, Doc>, raw: map<string, Raw>) {
    && (forall key :: key in out <==> Emits(raw, key))
    && (forall key | key in out :: CuratedDoc(raw, key, out[key]))
  }

  /** Curation emits curated keys only: neither the merged evaluations nor the cursus list get through. */
  lemma EmitsOnlyCurated(out: map<string, Doc>, raw: map<string, Raw>)
    requires CurationOf(out, raw)
    ensures out.Keys <= CURATED_KEYS && "scale_teams" !in out && "cursus_users" !in out
  {
    forall key | key in out
      ensures key in CURATED_KEYS
    {
      assert Emits(raw, key);
    }
    assert "scale_teams" !in CURATED_KEYS && "cursus_users" !in CURATED_KEYS;
  }

  /** A later row of an id wins over an earlier one. */
  lemma {:induction false} LastNameWins(rows: seq<(int, string)>, id: int)
    ensures id in NamesUpTo(rows) <==> exists i :: 0 <= i < |rows| && rows[i].0 == id
    ensures forall i | 0 <= i < |rows| && rows[i].0 == id && (forall k | i < k < |rows| :: rows[k].0 != id) ::
      id in NamesUpTo(rows) && NamesUpTo(rows)[id] == rows[i].1
  {
    if rows != [] {
      var front := rows[..|rows| - 1];
      LastNameWins(front, id);
      assert forall i | 0 <= i < |front| :: front[i] == rows[i];
      assert rows[|rows| - 1].0 == id ==> id in NamesUpTo(rows);
    }
  }

  /** The profile's two documents. */
  lemma CuratedProfile(out: map<string, Doc>, raw: map<string, Raw>)
    requires CurationOf(out, raw)
    ensures "me" in out <==> "me" in raw && raw["me"].RawMe?
    ensures "titles_users" in out <==> "me" in out
    ensures "me" in out ==> out["me"] == Profile(raw["me"].login, raw["me"].campus, raw["me"].zone)
    ensures "me" in out ==> out["titles_users"].Titles? && |out["titles_users"].titles| == |raw["me"].titlesUsers|
    ensures "me" in out ==> forall i, k | 0 <= i < |raw["me"].titlesUsers| && 0 <= k < |raw["me"].titles|
      && raw["me"].titles[k].0 == raw["me"].titlesUsers[i] && (forall n | k < n < |raw["me"].titles| :: raw["me"].titles[n].0 != raw["me"].titlesUsers[i]) ::
      out["titles_users"].titles[i] == raw["me"].titles[k].1
  {
    if "me" in out {
      forall i | 0 <= i < |raw["me"].titlesUsers| {
        LastNameWins(raw["me"].titles, raw["me"].titlesUsers[i]);
      }
    }
  }

  /** Each project goes by its own name. */
  lemma CuratedProjects(out: map<string, Doc>, raw: map<string, Raw>)
    requires CurationOf(out, raw)
    ensures "projects_users" in out <==> "projects_users" in raw && raw["projects_users"].RawProjects?
    ensures "projects_users" in out ==> out["projects_users"].Projects? && |out["projects_users"].names| == |raw["projects_users"].projects|
    ensures "projects_users" in out ==> forall i | 0 <= i < |raw["projects_users"].projects| ::
      out["projects_users"].names[i] == raw["projects_users"].projects[i].1
  {
  }

  /** Evaluations are curated with the owner the profile names and the names of the owner's projects. */
  lemma CuratedEvals(out: map<string, Doc>, raw: map<string, Raw>, key: string)
    requires CurationOf(out, raw) && (key == "scale_teams_as_corrector" || key == "scale_teams_as_corrected")
    ensures key in out <==> key in raw && raw[key].RawTeams?
    ensures key in out ==> raw[key].RawTeams? && out[key].Evals? && |out[key].evals| == |raw[key].teams|
    ensures key in out ==> forall i | 0 <= i < |raw[key].teams| :: Curates(out[key].evals[i], raw[key].teams[i],
      if "me" in raw && raw["me"].RawMe? then raw["me"].login else "",
      if "projects_users" in raw && raw["projects_users"].RawProjects? then NamesUpTo(raw["projects_users"].projects) else map[])
  {
    CuratedProfile(out, raw);
    CuratedProjects(out, raw);
  }

  /** The plain collections keep their items. */
  lemma CuratedItems(out: map<string, Doc>, raw: map<string, Raw>, key: string)
    requires CurationOf(out, raw)
    requires key in ["coalitions", "locations", "events_users", "quests_users", "correction_point_historics"]
    ensures key in out <==> key in raw && raw[key].RawItems?
    ensures key in out ==> out[key] == Items(raw[key].items)
  {
  }

  ghost predicate CuratesPrefix(evals: seq<Eval>, teams: seq<ScaleTeam>, owner: string, names: map<int, string>)
    requires |evals| <= |teams|
  {
    evals == [] ||
    var n := |evals| - 1;
    CuratesPrefix(evals[..n], teams, owner, names) && Curates(evals[n], teams[n], owner, names)
  }

  lemma {:induction false} CuratesEach(evals: seq<Eval>, teams: seq<ScaleTeam>, owner: string, names: map<int, string>, i: nat)
    requires i < |evals| <= |teams| && CuratesPrefix(evals, teams, owner, names)
    ensures Curates(evals[i], teams[i], owner, names)
  {
    if i < |evals| - 1 {
      CuratesEach(evals[..|evals| - 1], teams, owner, names, i);
    }
  }

  method CurateEvals(teams: seq<ScaleTeam>, owner: string, names: map<int, string>) returns (evals: seq<Eval>)
    ensures |evals| == |teams|
    ensures forall i | 0 <= i < |evals| :: Curates(evals[i], teams[i], owner, names)
  {
    evals := [];
    for i := 0 to |teams|
      invariant |evals| == i && CuratesPrefix(evals, teams, owner, names)
    {
      var e := EvalFrom(teams[i], owner, names);
      assert (evals + [e])[..i] == evals;
      evals := evals + [e];
    }
    forall i | 0 <= i < |evals|
      ensures Curates(evals[i], teams[i], owner, names)
    {
      CuratesEach(evals, teams, owner, names, i);
    }
  }

  method CurateInto(out: map<string, Doc>, raw: map<string, Raw>, key: string, owner: string, names: map<int, string>)
    returns (next: map<string, Doc>)
    requires key in CURATED_KEYS - {"me", "titles_users"}
    requires owner == OwnerLogin(raw) && names == ProjectNames(raw)
    ensures !WellFormed(raw, key) ==> next == out
    ensures WellFormed(raw, key) ==> key in next && next == out[key := next[key]] && CuratedDoc(raw, key, next[key])
  {
    next := out;
    if WellFormed(raw, key) {
      match raw[key] {
        case RawProjects(ps) =>
          next := out[key := Projects(seq(|ps|, i requires 0 <= i < |ps| => ps[i].1))];
        case RawTeams(teams) =>
          var evals := CurateEvals(teams, owner, names);
          next := out[key := Evals(evals)];
        case RawItems(items) =>
          next := out[key := Items(items)];
      }
    }
  }

  /** The names the later stages resolve project ids with. */
  method CollectNames(raw: map<string, Raw>) returns (names: map<int, string>)
    ensures names == ProjectNames(raw)
  {
    names := map[];
    if WellFormed(raw, "projects_users") {
      var ps := raw["projects_users"].projects;
      for i := 0 to |ps|
        invariant names == NamesUpTo(ps[..i])
      {
        assert ps[..i + 1][..i] == ps[..i];
        names := names[ps[i].0 := ps[i].1];
      }
      assert ps[..|ps|] == ps;
    }
  }

  /** The profile yields the header and the titles, and names the owner. */
  method CurateMe(raw: map<string, Raw>) returns (out: map<string, Doc>, owner: string)
    ensures owner == OwnerLogin(raw)
    ensures forall key :: key in out <==> key in {"me", "titles_users"} && Emits(raw, key)
    ensures forall key | key in out :: CuratedDoc(raw, key, out[key])
  {
    out, owner := map[], "";
    if WellFormed(raw, "me") {
      owner := raw["me"].login;
      out := map["me" := Profile(owner, raw["me"].campus, raw["me"].zone), "titles_users" := Titles(TitleNames(raw["me"]))];
    }
  }

  method Curate(raw: map<string, Raw>) returns (out: map<string, Doc>)
    ensures CurationOf(out, raw)
  {
    var owner;
    out, owner := CurateMe(raw);
    var names := CollectNames(raw);
    var keys := ["coalitions", "projects_users", "scale_teams_as_corrector", "scale_teams_as_corrected",
      "locations", "events_users", "quests_users", "correction_point_historics"];
    for i := 0 to |keys|
      invariant forall key :: key in out <==> (key in {"me", "titles_users"} || key in keys[..i]) && Emits(raw, key)
      invariant forall key | key in out :: CuratedDoc(raw, key, out[key])
    {
      out := CurateInto(out, raw, keys[i], owner, names);
    }
    assert forall key | Emits(raw, key) :: key in {"me", "titles_users"} || key in keys;
    assert keys[..|keys|] == keys;
  }
}
