/**
 The dashboard built from a stored snapshot: what a visitor may see of it, and how its
 lists are ordered. Panels carry the values their cells are formatted from.
 */
module View {
  import opened Wrappers
  import opened Skills
  import opened Sorting
  import Calendar
  import opened Text

  datatype Section = Points | Coalitions | Contact | Projects | EvalsReceived | EvalsGiven | CorrectionPoints
    | Quests | Titles | Achievements | Events | Locations | Skills

  type Visibility = map<Section, bool>

  predicate PrivateByDefault(key: Section) {
    key.Coalitions? || key.Locations? || key.Skills? || key.Contact? || key.Points? || key.CorrectionPoints? || key.Events?
  }

  /** An explicit choice of the owner wins over the default. */
  predicate SectionPublic(vis: Visibility, key: Section) {
    if key in vis then vis[key] else !PrivateByDefault(key)
  }

  // ---- the stored snapshot

  /** A list entry: the time it is ordered by, and the fields its row shows. */
  datatype Record = Record(at: string, fields: seq<string>)

  datatype Coalition = Coalition(name: string, score: int, color: string)

  datatype Profile = Profile(
    name: string, login: string, email: string, campus: string, zone: string, poolMonth: string, poolYear: string,
    points: int, wallet: int, achievements: seq<Record>, cursus: seq<Cursus>)

  /** me is None when the stored profile does not decode; a collection that is absent is empty. */
  datatype Snapshot = Snapshot(me: Option<Profile>, lists: map<Section, seq<Record>>, coalitions: seq<Coalition>) {
    function List(key: Section): seq<Record> {
      if key in lists then lists[key] else []
    }
  }

  // ---- the page

  datatype PointsCard = PointsCard(points: int, wallet: int, priv: bool)

  datatype Badge = Badge(name: string, score: int, color: string, priv: bool)

  datatype CursusRow = CursusRow(name: string, grade: string, level: real, latest: bool)

  datatype Header = Header(
    name: string, login: string, campus: string, pool: (string, string),
    points: Option<PointsCard>, cursus: seq<CursusRow>, coalition: Option<Badge>)

  /** What rows are rendered with besides their own fields. */
  datatype Context = Context(login: string, pool: (string, string), zone: Option<string>)

  datatype Body = EmailBody(email: string) | RowsBody(rows: seq<Record>, context: Context) | SkillsBody(bars: seq<Bar>)

  datatype Panel = Panel(body: Body, priv: bool)

  datatype Panels = Panels(
    contact: Option<Panel>, projects: Option<Panel>, evalsReceived: Option<Panel>, evalsGiven: Option<Panel>,
    correctionPoints: Option<Panel>, quests: Option<Panel>, titles: Option<Panel>, achievements: Option<Panel>,
    events: Option<Panel>, locations: Option<Panel>, skills: Option<Panel>)
  {
    function At(key: Section): Option<Panel> {
      match key
      case Contact => contact
      case Projects => projects
      case EvalsReceived => evalsReceived
      case EvalsGiven => evalsGiven
      case CorrectionPoints => correctionPoints
      case Quests => quests
      case Titles => titles
      case Achievements => achievements
      case Events => events
      case Locations => locations
      case Skills => skills
      case Points => None
      case Coalitions => None
    }
  }

  datatype Page = Failed | Page(header: Header, panels: Panels)

  /** Time zones: which names the zone database knows, and what other accounts told about a campus. */
  datatype Zones = Zones(known: string -> bool, zoneFor: Option<string -> string>) {
    function Locate(zone: string): Option<string> {
      if zone != "" && known(zone) then Some(zone) else None
    }

    function Of(me: Profile): Option<string> {
      if Locate(me.zone).Some? || zoneFor.None? then Locate(me.zone) else Locate(zoneFor.value(me.campus))
    }
  }

  // ---- the header

  function HeaderOf(c: Cursus): Cursus {
    c.(skills := [])
  }

  /** Which cursus leads: the later start, then any before a piscine, then the higher level. */
  predicate Leads(a: Cursus, b: Cursus) {
    if a.beginAt != b.beginAt then Less(b.beginAt, a.beginAt)
    else if Calendar.IsPiscine(a.name) != Calendar.IsPiscine(b.name) then Calendar.IsPiscine(b.name)
    else a.level > b.level
  }

  lemma LeadsIsStrictWeak()
    ensures StrictWeakOrder(Leads)
  {
    forall a, b | Leads(a, b)
      ensures !Leads(b, a)
    {
      if a.beginAt != b.beginAt {
        LessIsAsymmetric(b.beginAt, a.beginAt);
      }
    }
    forall a, b, c | !Leads(a, b) && !Leads(b, c)
      ensures !Leads(a, c)
    {
      NotLeadsIsTransitive(a, b, c);
    }
  }

  lemma NotLeadsIsTransitive(a: Cursus, b: Cursus, c: Cursus)
    requires !Leads(a, b) && !Leads(b, c)
    ensures !Leads(a, c)
  {
    LessIsTotal(a.beginAt, b.beginAt);
    LessIsTotal(b.beginAt, c.beginAt);
    LessIsTotal(a.beginAt, c.beginAt);
    if a.beginAt != b.beginAt && b.beginAt != c.beginAt {
      LessIsTransitive(a.beginAt, b.beginAt, c.beginAt);
    }
    if Less(a.beginAt, c.beginAt) {
      LessIsAsymmetric(a.beginAt, c.beginAt);
    }
  }

  function RowOf(c: Cursus, latest: bool): CursusRow {
    CursusRow(c.name, if c.grade == "" then "-" else c.grade, c.level, latest)
  }

  function CursusRows(cursus: seq<Cursus>): seq<CursusRow> {
    seq(|cursus|, i requires 0 <= i < |cursus| => RowOf(cursus[i], i == 0))
  }

  /** Exactly the first row is marked latest, and no other cursus leads the one it shows. */
  lemma LatestCursusLeads(cursus: seq<Cursus>, i: nat)
    requires i < |cursus|
    ensures var rows, first := CursusRows(Sort(cursus, Leads)), Sort(cursus, Leads)[0];
      first in cursus && !Leads(cursus[i], first) && rows[0].name == first.name && rows[0].level == first.level && rows[0].latest
    ensures CursusRows(Sort(cursus, Leads))[i].latest <==> i == 0
    ensures (forall k | 0 <= k < |cursus| :: cursus[k].beginAt == "") && !Calendar.IsPiscine(cursus[i].name)
      ==> !Calendar.IsPiscine(Sort(cursus, Leads)[0].name)
  {
    var sorted := Sort(cursus, Leads);
    LeadsIsStrictWeak();
    SortSorts(cursus, Leads);
    SortKeepsMembers(cursus, Leads, sorted[0]);
    SortKeepsMembers(cursus, Leads, cursus[i]);
    var k :| 0 <= k < |sorted| && sorted[k] == cursus[i];
  }

  /** The rows do not depend on the skills: dropping them before sorting gives the same rows. */
  lemma RowsIgnoreSkills(a: seq<Cursus>, b: seq<Cursus>)
    requires Map(a, HeaderOf) == Map(b, HeaderOf)
    ensures CursusRows(Sort(a, Leads)) == CursusRows(Sort(b, Leads))
  {
    SortCommutes(a, HeaderOf, Leads, Leads);
    SortCommutes(b, HeaderOf, Leads, Leads);
    var x, y := Sort(a, Leads), Sort(b, Leads);
    assert |a| == |Map(a, HeaderOf)| == |b|;
    forall i | 0 <= i < |x|
      ensures CursusRows(x)[i] == CursusRows(y)[i]
    {
      assert Map(x, HeaderOf)[i] == Map(y, HeaderOf)[i];
    }
  }

  /** Who sees a section, and whether it is badged as hidden from others. */
  predicate Seen(vis: Visibility, key: Section, owner: bool) {
    owner || SectionPublic(vis, key)
  }

  predicate Badged(vis: Visibility, key: Section, owner: bool) {
    owner && !SectionPublic(vis, key)
  }

  ghost predicate IsHeader(h: Header, me: Profile, coalitions: seq<Coalition>, owner: bool, vis: Visibility) {
    && h.name == (if me.name == "" then "Unknown" else me.name)
    && h.login == me.login && h.campus == me.campus && h.pool == (me.poolMonth, me.poolYear)
    && h.cursus == CursusRows(Sort(me.cursus, Leads))
    && h.points == (if Seen(vis, Points, owner) then Some(PointsCard(me.points, me.wallet, Badged(vis, Points, owner))) else None)
    && (h.coalition.Some? <==> Seen(vis, Coalitions, owner) && coalitions != [])
    && (h.coalition.Some? ==> h.coalition.value == BadgeOf(coalitions[0], Badged(vis, Coalitions, owner)))
  }

  function BadgeOf(c: Coalition, priv: bool): Badge {
    Badge(c.name, c.score, if c.color == "" then "#00babc" else c.color, priv)
  }

  method RenderRows(cursus: seq<Cursus>) returns (rows: seq<CursusRow>)
    ensures rows == CursusRows(cursus)
  {
    rows := [];
    for i := 0 to |cursus|
      invariant |rows| == i
      invariant forall k | 0 <= k < i :: rows[k] == CursusRows(cursus)[k]
    {
      rows := rows + [RowOf(cursus[i], i == 0)];
    }
  }

  method BuildProfile(me: Profile, coalitions: seq<Coalition>, owner: bool, vis: Visibility) returns (h: Header)
    ensures IsHeader(h, me, coalitions, owner, vis)
  {
    var points := None;
    var public := SectionPublic(vis, Points);
    if owner || public {
      points := Some(PointsCard(me.points, me.wallet, owner && !public));
    }
    var cursus := new Cursus[|me.cursus|](i requires 0 <= i < |me.cursus| => me.cursus[i]);
    assert cursus[..] == me.cursus;
    SortInPlace(cursus, Leads);
    var rows := RenderRows(cursus[..]);
    var coalition := None;
    public := SectionPublic(vis, Coalitions);
    if (owner || public) && |coalitions| > 0 {
      coalition := Some(BadgeOf(coalitions[0], owner && !public));
    }
    h := Header(if me.name == "" then "Unknown" else me.name, me.login, me.campus, (me.poolMonth, me.poolYear),
      points, rows, coalition);
  }

  // ---- the panels

  /** Points and coalitions are part of the header. */
  predicate IsPanel(key: Section) {
    !key.Points? && !key.Coalitions?
  }

  predicate Newer(a: Record, b: Record) {
    Less(b.at, a.at)
  }

  predicate ByTime(key: Section) {
    key.Projects? || key.EvalsReceived? || key.EvalsGiven? || key.CorrectionPoints? || key.Events? || key.Locations?
  }

  function ContextOf(me: Profile, zones: Zones): Context {
    Context(me.login, (me.poolMonth, me.poolYear), zones.Of(me))
  }

  /** The entries a section of rows shows. */
  function Entries(s: Snapshot, me: Profile, key: Section): seq<Record> {
    if key.Achievements? then me.achievements else s.List(key)
  }

  predicate HasData(s: Snapshot, me: Profile, key: Section) {
    if key.Contact? then me.email != ""
    else if key.Skills? then AllSkills(me.cursus) != []
    else Entries(s, me, key) != []
  }

  /** What a section shows: the email, the entries newest first, or the skills ranked. */
  ghost predicate IsBody(body: Body, s: Snapshot, me: Profile, key: Section, zones: Zones) {
    if key.Contact? then body == EmailBody(me.email)
    else if key.Skills? then body.SkillsBody? && IsTopSkills(body.bars, Best(AllSkills(me.cursus)))
    else body == RowsBody(if ByTime(key) then Sort(Entries(s, me, key), Newer) else Entries(s, me, key), ContextOf(me, zones))
  }

  /** A panel is there when its section has data and the viewer may see it, badged if others may not. */
  ghost predicate IsShown(panel: Option<Panel>, key: Section, s: Snapshot, me: Profile, owner: bool, vis: Visibility, zones: Zones) {
    && (panel.Some? <==> Seen(vis, key, owner) && HasData(s, me, key))
    && (panel.Some? ==> panel.value.priv == Badged(vis, key, owner) && IsBody(panel.value.body, s, me, key, zones))
  }

  /** What Build returns: an error page when the profile does not decode, else the header and the visible panels. */
  ghost predicate IsPage(page: Page, s: Snapshot, owner: bool, vis: Visibility, zones: Zones) {
    match s.me
    case None => page.Failed?
    case Some(me) =>
      && page.Page? && IsHeader(page.header, me, s.coalitions, owner, vis)
      && forall key | IsPanel(key) :: IsShown(page.panels.At(key), key, s, me, owner, vis, zones)
  }

  method BuildBody(s: Snapshot, me: Profile, key: Section, zones: Zones) returns (body: Option<Body>)
    requires IsPanel(key)
    ensures body.Some? <==> HasData(s, me, key)
    ensures body.Some? ==> IsBody(body.value, s, me, key, zones)
  {
    if key.Contact? {
      return if me.email == "" then None else Some(EmailBody(me.email));
    }
    if key.Skills? {
      if |me.cursus| == 0 {
        return None;
      }
      var bars := TopSkills(me.cursus);
      SkillsExist(AllSkills(me.cursus));
      return if |bars| == 0 then None else Some(SkillsBody(bars));
    }
    var entries := Entries(s, me, key);
    if |entries| == 0 {
      return None;
    }
    if ByTime(key) {
      var rows := new Record[|entries|](i requires 0 <= i < |entries| => entries[i]);
      assert rows[..] == entries;
      SortInPlace(rows, Newer);
      entries := rows[..];
    }
    body := Some(RowsBody(entries, ContextOf(me, zones)));
  }

  lemma SkillsExist(skills: seq<Skill>)
    ensures |Best(skills)| == 0 <==> skills == []
  {
    if skills != [] {
      assert skills[|skills| - 1].name in Best(skills);
    }
  }

  method IncludeSection(key: Section, s: Snapshot, me: Profile, owner: bool, vis: Visibility, zones: Zones) returns (panel: Option<Panel>)
    requires IsPanel(key)
    ensures IsShown(panel, key, s, me, owner, vis, zones)
  {
    var public := SectionPublic(vis, key);
    var body := BuildBody(s, me, key, zones);
    if body.None? || !(owner || public) {
      return None;
    }
    panel := Some(Panel(body.value, owner && !public));
  }

  method Build(s: Snapshot, owner: bool, vis: Visibility, zones: Zones) returns (page: Page)
    ensures IsPage(page, s, owner, vis, zones)
  {
    if s.me.None? {
      return Failed;
    }
    var me := s.me.value;
    var header := BuildProfile(me, s.coalitions, owner, vis);
    var contact := IncludeSection(Contact, s, me, owner, vis, zones);
    var projects := IncludeSection(Projects, s, me, owner, vis, zones);
    var evalsReceived := IncludeSection(EvalsReceived, s, me, owner, vis, zones);
    var evalsGiven := IncludeSection(EvalsGiven, s, me, owner, vis, zones);
    var correctionPoints := IncludeSection(CorrectionPoints, s, me, owner, vis, zones);
    var quests := IncludeSection(Quests, s, me, owner, vis, zones);
    var titles := IncludeSection(Titles, s, me, owner, vis, zones);
    var achievements := IncludeSection(Achievements, s, me, owner, vis, zones);
    var events := IncludeSection(Events, s, me, owner, vis, zones);
    var locations := IncludeSection(Locations, s, me, owner, vis, zones);
    var skills := IncludeSection(Skills, s, me, owner, vis, zones);
    var panels := Panels(contact, projects, evalsReceived, evalsGiven, correctionPoints, quests,
      titles, achievements, events, locations, skills);
    forall key | IsPanel(key)
      ensures IsShown(panels.At(key), key, s, me, owner, vis, zones)
    {
      match key {
        case Contact =>
        case Projects =>
        case EvalsReceived =>
        case EvalsGiven =>
        case CorrectionPoints =>
        case Quests =>
        case Titles =>
        case Achievements =>
        case Events =>
        case Locations =>
        case Skills =>
      }
    }
    page := Page(header, panels);
  }

  // ---- what a page shows, in terms of the snapshot and the owner's choices

  /** The snapshot holds something for the section. */
  ghost predicate Filled(s: Snapshot, me: Profile, key: Section) {
    match key
    case Contact => me.email != ""
    case Achievements => me.achievements != []
    case Skills => exists i :: 0 <= i < |me.cursus| && me.cursus[i].skills != []
    case Points => true
    case Coalitions => s.coalitions != []
    case _ => key in s.lists && s.lists[key] != []
  }

  lemma {:induction false} SkillsFilled(cursus: seq<Cursus>)
    ensures AllSkills(cursus) != [] <==> exists i :: 0 <= i < |cursus| && cursus[i].skills != []
  {
    if cursus != [] {
      var front := cursus[..|cursus| - 1];
      SkillsFilled(front);
      assert forall i | 0 <= i < |front| :: front[i] == cursus[i];
    }
  }

  /** A section the owner made private is hidden from visitors, and badged for the owner. */
  lemma PrivateChoiceCounts(page: Page, s: Snapshot, owner: bool, vis: Visibility, zones: Zones, key: Section)
    requires IsPage(page, s, owner, vis, zones) && s.me.Some? && key in vis && !vis[key] && IsPanel(key)
    ensures page.Page?
    ensures !owner ==> page.panels.At(key) == None
    ensures owner ==> (page.panels.At(key).Some? <==> Filled(s, s.me.value, key))
    ensures owner && page.panels.At(key).Some? ==> page.panels.At(key).value.priv
  {
    SkillsFilled(s.me.value.cursus);
  }

  /** A section the owner made public is there for everybody, without a badge. */
  lemma PublicChoiceCounts(page: Page, s: Snapshot, owner: bool, vis: Visibility, zones: Zones, key: Section)
    requires IsPage(page, s, owner, vis, zones) && s.me.Some? && key in vis && vis[key] && IsPanel(key)
    ensures page.Page?
    ensures page.panels.At(key).Some? <==> Filled(s, s.me.value, key)
    ensures page.panels.At(key).Some? ==> !page.panels.At(key).value.priv
  {
    SkillsFilled(s.me.value.cursus);
  }

  /** Without a choice, six of the panels are there for everybody, without a badge. */
  lemma ShownByDefault(page: Page, s: Snapshot, owner: bool, vis: Visibility, zones: Zones, key: Section)
    requires IsPage(page, s, owner, vis, zones) && s.me.Some? && key !in vis
    requires key == Projects || key == EvalsReceived || key == EvalsGiven || key == Quests || key == Titles || key == Achievements
    ensures page.Page?
    ensures page.panels.At(key).Some? <==> Filled(s, s.me.value, key)
    ensures page.panels.At(key).Some? ==> !page.panels.At(key).value.priv
  {
  }

  /** Without a choice, the other five are hidden from visitors, and badged for the owner. */
  lemma HiddenByDefault(page: Page, s: Snapshot, owner: bool, vis: Visibility, zones: Zones, key: Section)
    requires IsPage(page, s, owner, vis, zones) && s.me.Some? && key !in vis
    requires key == Contact || key == CorrectionPoints || key == Events || key == Locations || key == Skills
    ensures page.Page?
    ensures page.panels.At(key).Some? <==> owner && Filled(s, s.me.value, key)
    ensures page.panels.At(key).Some? ==> page.panels.At(key).value.priv
  {
    SkillsFilled(s.me.value.cursus);
  }

  /** The panels under their names. */
  lemma PanelsByName(p: Panels)
    ensures p == Panels(p.At(Contact), p.At(Projects), p.At(EvalsReceived), p.At(EvalsGiven), p.At(CorrectionPoints), p.At(Quests),
      p.At(Titles), p.At(Achievements), p.At(Events), p.At(Locations), p.At(Skills))
  {
  }

  /** Points and coalition are private unless the owner chose otherwise: then only the owner sees them, badged. */
  lemma HeaderChoices(page: Page, s: Snapshot, owner: bool, vis: Visibility, zones: Zones)
    requires IsPage(page, s, owner, vis, zones) && s.me.Some?
    ensures page.Page?
    ensures Points in vis && vis[Points] ==> page.header.points == Some(PointsCard(s.me.value.points, s.me.value.wallet, false))
    ensures !(Points in vis && vis[Points]) ==>
      page.header.points == if owner then Some(PointsCard(s.me.value.points, s.me.value.wallet, true)) else None
    ensures page.header.coalition.Some? <==> s.coalitions != [] && (owner || (Coalitions in vis && vis[Coalitions]))
    ensures page.header.coalition.Some? ==> page.header.coalition.value == Badge(s.coalitions[0].name, s.coalitions[0].score,
      if s.coalitions[0].color == "" then "#00babc" else s.coalitions[0].color, !(Coalitions in vis && vis[Coalitions]))
  {
  }

  /** The zone that times are shown in: the profile's own, else the one known for its campus, if the zone database has it. */
  lemma ZoneOfProfile(zones: Zones, me: Profile)
    ensures me.zone != "" && zones.known(me.zone) ==> zones.Of(me) == Some(me.zone)
    ensures !(me.zone != "" && zones.known(me.zone)) && zones.zoneFor.None? ==> zones.Of(me) == None
    ensures !(me.zone != "" && zones.known(me.zone)) && zones.zoneFor.Some? ==>
      var told := zones.zoneFor.value(me.campus); zones.Of(me) == if told != "" && zones.known(told) then Some(told) else None
  {
  }

  /** The rows are the entries, and no later row has the later time. */
  ghost predicate NewestFirst(rows: seq<Record>, entries: seq<Record>) {
    multiset(rows) == multiset(entries) && forall i, j | 0 <= i < j < |rows| :: !Less(rows[i].at, rows[j].at)
  }

  lemma NewerIsStrictWeak()
    ensures StrictWeakOrder(Newer)
  {
    forall a, b | Newer(a, b)
      ensures !Newer(b, a)
    {
      LessIsAsymmetric(b.at, a.at);
    }
    forall a, b, c | !Newer(a, b) && !Newer(b, c)
      ensures !Newer(a, c)
    {
      NotLaterIsTransitive(a.at, b.at, c.at);
    }
  }

  lemma NotLaterIsTransitive(a: string, b: string, c: string)
    requires !Less(b, a) && !Less(c, b)
    ensures !Less(c, a)
  {
    LessIsTotal(a, b);
    LessIsTotal(b, c);
    if a != b && b != c {
      LessIsTransitive(a, b, c);
      LessIsAsymmetric(a, c);
    }
  }

  /** Contact shows the address and skills the ranking; the other panels show rows, with what is known of the profile. */
  lemma PanelBodies(page: Page, s: Snapshot, owner: bool, vis: Visibility, zones: Zones, key: Section)
    requires IsPage(page, s, owner, vis, zones) && s.me.Some? && IsPanel(key) && page.panels.At(key).Some?
    ensures key.Contact? ==> page.panels.At(key).value.body == EmailBody(s.me.value.email)
    ensures key.Skills? <==> page.panels.At(key).value.body.SkillsBody?
    ensures key.Skills? ==> IsTopSkills(page.panels.At(key).value.body.bars, Best(AllSkills(s.me.value.cursus)))
    ensures key.Achievements? ==> page.panels.At(key).value.body == RowsBody(s.me.value.achievements, ContextOf(s.me.value, zones))
  {
  }

  /** Quests and titles keep the stored order; the other lists are shown newest first. */
  lemma PanelRows(page: Page, s: Snapshot, owner: bool, vis: Visibility, zones: Zones, key: Section)
    requires IsPage(page, s, owner, vis, zones) && s.me.Some? && IsPanel(key) && page.panels.At(key).Some?
    requires !key.Contact? && !key.Skills? && !key.Achievements?
    ensures page.panels.At(key).value.body.RowsBody? && key in s.lists
    ensures page.panels.At(key).value.body.context.login == s.me.value.login
    ensures page.panels.At(key).value.body.context.pool == (s.me.value.poolMonth, s.me.value.poolYear)
    ensures page.panels.At(key).value.body.context.zone == zones.Of(s.me.value)
    ensures key.Quests? || key.Titles? ==> page.panels.At(key).value.body.rows == s.lists[key]
    ensures !key.Quests? && !key.Titles? ==> NewestFirst(page.panels.At(key).value.body.rows, s.lists[key])
  {
    if ByTime(key) {
      NewerIsStrictWeak();
      SortSorts(s.List(key), Newer);
      SortPermutes(s.List(key), Newer);
    }
  }

  /** a may stand before b: it starts no earlier, a tie goes to the one that is no piscine, and then to the higher level. */
  ghost predicate MayPrecede(a: Cursus, b: Cursus) {
    && !Less(a.beginAt, b.beginAt)
    && (a.beginAt == b.beginAt && Says(a.name, "piscine") ==> Says(b.name, "piscine"))
    && (a.beginAt == b.beginAt && (Says(a.name, "piscine") <==> Says(b.name, "piscine")) ==> a.level >= b.level)
  }

  lemma NotLedMayPrecede(a: Cursus, b: Cursus)
    requires !Leads(b, a)
    ensures MayPrecede(a, b)
  {
    LessIsTotal(a.beginAt, b.beginAt);
    LoweredSays(a.name, "piscine");
    LoweredSays(b.name, "piscine");
    if Less(a.beginAt, b.beginAt) {
      LessIsAsymmetric(a.beginAt, b.beginAt);
    }
  }

  /** The header lists every cursus once, each before those it may precede, the first one marked latest. */
  lemma HeaderRows(page: Page, s: Snapshot, owner: bool, vis: Visibility, zones: Zones) returns (sorted: seq<Cursus>)
    requires IsPage(page, s, owner, vis, zones) && s.me.Some?
    ensures page.Page? && multiset(sorted) == multiset(s.me.value.cursus) && |page.header.cursus| == |sorted|
    ensures forall i | 0 <= i < |sorted| :: page.header.cursus[i].latest <==> i == 0
    ensures forall i | 0 <= i < |sorted| :: page.header.cursus[i].name == sorted[i].name
    ensures forall i | 0 <= i < |sorted| :: page.header.cursus[i].level == sorted[i].level
    ensures forall i | 0 <= i < |sorted| && sorted[i].grade != "" :: page.header.cursus[i].grade == sorted[i].grade
    ensures forall i | 0 <= i < |sorted| && sorted[i].grade == "" :: page.header.cursus[i].grade == "-"
    ensures forall i, j | 0 <= i < j < |sorted| :: MayPrecede(sorted[i], sorted[j])
  {
    sorted := Sort(s.me.value.cursus, Leads);
    SortedByRank(s.me.value.cursus);
  }

  lemma SortedByRank(cursus: seq<Cursus>)
    ensures multiset(Sort(cursus, Leads)) == multiset(cursus)
    ensures forall i, j | 0 <= i < j < |Sort(cursus, Leads)| :: MayPrecede(Sort(cursus, Leads)[i], Sort(cursus, Leads)[j])
  {
    LeadsIsStrictWeak();
    SortSorts(cursus, Leads);
    SortPermutes(cursus, Leads);
    var sorted := Sort(cursus, Leads);
    forall i, j | 0 <= i < j < |sorted|
      ensures MayPrecede(sorted[i], sorted[j])
    {
      NotLedMayPrecede(sorted[i], sorted[j]);
    }
  }

  /** The rest of the header is the profile's own. */
  lemma HeaderNames(page: Page, s: Snapshot, owner: bool, vis: Visibility, zones: Zones)
    requires IsPage(page, s, owner, vis, zones) && s.me.Some?
    ensures page.Page? && page.header.login == s.me.value.login && page.header.campus == s.me.value.campus
    ensures s.me.value.name != "" ==> page.header.name == s.me.value.name
    ensures s.me.value.name == "" ==> page.header.name == "Unknown"
    ensures page.header.pool == (s.me.value.poolMonth, s.me.value.poolYear)
  {
  }

  // ---- what visitors see

  function Keep(p: Option<Panel>): Option<Panel> {
    if p.Some? && p.value.priv then None else p
  }

  /** The page without everything badged as private. */
  function StripPrivate(page: Page): Page {
    match page
    case Failed => Failed
    case Page(h, p) =>
      Page(h.(points := if h.points.Some? && h.points.value.priv then None else h.points,
              coalition := if h.coalition.Some? && h.coalition.value.priv then None else h.coalition),
           Panels(Keep(p.contact), Keep(p.projects), Keep(p.evalsReceived), Keep(p.evalsGiven), Keep(p.correctionPoints), Keep(p.quests),
                  Keep(p.titles), Keep(p.achievements), Keep(p.events), Keep(p.locations), Keep(p.skills)))
  }

  ghost predicate SameBody(a: Body, b: Body) {
    a == b || (a.SkillsBody? && b.SkillsBody? && SameUpToTies(a.bars, b.bars))
  }

  ghost predicate SamePanel(a: Option<Panel>, b: Option<Panel>) {
    && (a.Some? <==> b.Some?)
    && (a.Some? ==> a.value.priv == b.value.priv && SameBody(a.value.body, b.value.body))
  }

  /** Equal pages, but for the order of skills of equal level. */
  ghost predicate SamePage(a: Page, b: Page) {
    && (a.Failed? <==> b.Failed?)
    && (a.Page? ==> a.header == b.header && forall key | IsPanel(key) :: SamePanel(a.panels.At(key), b.panels.At(key)))
  }

  lemma SameBodies(a: Body, b: Body, s: Snapshot, me: Profile, key: Section, zones: Zones)
    requires IsBody(a, s, me, key, zones) && IsBody(b, s, me, key, zones)
    ensures SameBody(a, b)
  {
    if key.Skills? {
      TopSkillsUpToTies(a.bars, b.bars, Best(AllSkills(me.cursus)));
    }
  }

  /** The owner's page without the private panels is the page a visitor gets. */
  lemma OwnerWithoutPrivateIsVisitor(owners: Page, visitors: Page, s: Snapshot, vis: Visibility, zones: Zones)
    requires IsPage(owners, s, true, vis, zones) && IsPage(visitors, s, false, vis, zones)
    ensures SamePage(StripPrivate(owners), visitors)
  {
    if s.me.Some? {
      var stripped := StripPrivate(owners);
      forall key | IsPanel(key)
        ensures SamePanel(stripped.panels.At(key), visitors.panels.At(key))
      {
        var o, v := owners.panels.At(key), visitors.panels.At(key);
        assert stripped.panels.At(key) == Keep(o);
        if v.Some? {
          SameBodies(o.value.body, v.value.body, s, s.me.value, key, zones);
        }
      }
    }
  }

  /** Two snapshots with the same data in every public section, and the same header beside the sections. */
  ghost predicate SamePublicData(a: Snapshot, b: Snapshot, vis: Visibility) {
    && a.me.Some? && b.me.Some?
    && var x, y := a.me.value, b.me.value;
    && x.(email := "", points := 0, wallet := 0, achievements := [], cursus := [])
       == y.(email := "", points := 0, wallet := 0, achievements := [], cursus := [])
    && Map(x.cursus, HeaderOf) == Map(y.cursus, HeaderOf)
    && (SectionPublic(vis, Points) ==> x.points == y.points && x.wallet == y.wallet)
    && (SectionPublic(vis, Coalitions) ==> a.coalitions == b.coalitions)
    && (SectionPublic(vis, Contact) ==> x.email == y.email)
    && (SectionPublic(vis, Skills) ==> AllSkills(x.cursus) == AllSkills(y.cursus))
    && forall key | IsPanel(key) && SectionPublic(vis, key) :: Entries(a, x, key) == Entries(b, y, key)
  }

  /** What a visitor gets depends on public sections only: no change to the data of another section shows. */
  lemma VisitorSeesOnlyPublic(p: Page, q: Page, a: Snapshot, b: Snapshot, vis: Visibility, zones: Zones)
    requires SamePublicData(a, b, vis)
    requires IsPage(p, a, false, vis, zones) && IsPage(q, b, false, vis, zones)
    ensures SamePage(p, q)
  {
    var x, y := a.me.value, b.me.value;
    RowsIgnoreSkills(x.cursus, y.cursus);
    forall key | IsPanel(key)
      ensures SamePanel(p.panels.At(key), q.panels.At(key))
    {
      SamePublicPanel(p.panels.At(key), q.panels.At(key), a, b, vis, zones, key);
    }
  }

  lemma SamePublicPanel(v: Option<Panel>, w: Option<Panel>, a: Snapshot, b: Snapshot, vis: Visibility, zones: Zones, key: Section)
    requires SamePublicData(a, b, vis) && IsPanel(key)
    requires IsShown(v, key, a, a.me.value, false, vis, zones) && IsShown(w, key, b, b.me.value, false, vis, zones)
    ensures SamePanel(v, w)
  {
    if SectionPublic(vis, key) {
      assert Entries(a, a.me.value, key) == Entries(b, b.me.value, key);
      if v.Some? {
        SameBodies(v.value.body, w.value.body, a, a.me.value, key, zones);
      }
    }
  }
}
